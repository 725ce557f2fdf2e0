# A verified model of a teaching kernel and a shell

The repository holds an xv6 kernel for RISC-V, extended with a multi-level feedback queue
(MLFQ) scheduler, and a small POSIX shell. This Dafny project models their hardest parts and
proves what those parts are for. `dafny verify dfyconfig.toml` checks all of it.

| files | what they model | main result |
|---|---|---|
| `Disk`, `LogProtocol`, `Log` | the redo log: group commit, recovery, admission, sync | `CrashAnywhere` and the contracts of `Log.Commit` and `Log.RunCommit`: a crash after any block write of a commit or of a recovery, any number of times, leaves all old or all new contents; when `sys_sync` returns, the disk recovers to contents that cover it |
| `CommitSteps`, `SyncSteps`, `FullLog` | a commit one write at a time, with reads and sync calls between; a log filled to the last block | `AtomicThroughout`, `SyncServed`: the same under every interleaving with readers and with `sys_sync`; the two ways a full log fails are reachable |
| `LruRing`, `BufferCache` | the buffer cache as a linked LRU list | cache and log together refine a plain block store; pinned blocks are never recycled before they are installed |
| `RunQueues`, `BoundedWaiting` | the linked run queues and the scheduler of one CPU | `BoundedWait`: dispatch within 48 + NPROC ticks in every run, or 47 + 2 NPROC with those the scheduler loop takes itself |
| `QueueMembership`, `LinkedQueues` | the same queues under any interleaving of CPUs | a RUNNABLE process is in exactly one place; the linked lists spell the queues in every schedule |
| `SleepLocks`, `WaitExit` | two-phase sleep and wakeup, wait and exit | no wakeup and no exit is missed, in any schedule |
| `Sv39`, `PageOwners`, `VmRelations`, `Vm` | page tables of section 4.4 (Sv39) of the RISC-V Privileged Architecture v1.12, page allocation, process memory | the radix tree refines a flat map; free, table and user pages partition the pool after every operation and every failure |
| `Files`, `Fs` | block bitmap, block mapping, reading and writing of files | a file is a byte sequence; set bits are exactly metadata and the blocks of files, each with one owner; a write transaction logs at most 7 blocks |
| `FreeRing`, `HeapTiles`, `Umalloc` | the user-level allocator with its circular free list | live and free blocks tile the heap, merged and in address order, in every run; memory backs it exactly until one request of 2^27 units |
| `Virtqueue` | the disk driver over the split virtqueue of section 2.6 of VIRTIO 1.1, with requests as in section 5.2 | requests own disjoint chains; nothing outstanding is overwritten, across 16-bit wrap-around; data moves between the buffer and the sector of its own request |
| `Pipes` | pipes with 32-bit counters | first in, first out, nothing lost |
| `Grep` | the regular expression matcher | it decides the language of the expression |
| `Lexer`, `Parser`, `Splitter`, `Pipelines` | the shell's front end | every printable token list lexes back; what the parser accepts is what its contract says; splitting succeeds if and only if no word is taken for an operator and every stage fits its arrays |

`Distinctness` holds facts about sequences without repetition, `Bytes` the patching of one.

Code that updates state in place is modelled by classes and arrays; each method is proved
against a function or relation on values, and the lemmas are about those. Concurrent code
(`QueueMembership`, `SleepLocks`, `WaitExit`) is a state machine whose steps are the stretches
between lock operations, with runs as arbitrary sequences of steps.

## Where the code does less than one might expect

- `log_write` panics on a full log even when the block is already in it and would be absorbed
  (`Log.LogWrite`, an if and only if; `FullLog.AbsorbingPanics` reaches such a state).
- NBUF equals LOGBLOCKS, so a transaction that fills the log leaves no buffer to commit with
  (`FullLogLeavesNoBuffer`; `FullLog.FullCommitPanics` reaches such a state; `Log.Commit` says
  exactly when a commit can start).
- `morecore` passes its request to `sbrk` as an `int`. From 2^27 units on the break ends up
  below the block handed out (`RequestExact`, `HugeRequest` for `malloc(0xFFFFFFF0)`;
  `Umalloc.Allocator.Malloc` says exactly when memory still backs the heap).
- The splitter compares spellings where the parser compares kinds, so `echo ">"` is accepted
  and then refused (`QuotedOperatorRefused`), and `cat "<" x` is run with an input file
  (`QuotedOperatorMissplit`). Its arrays have 100 places, so a hundred words store past the
  end (`HundredWordsOverrun`). `SplitExact` gives the exact condition.
- Pipelines of more than a hundred stages are split well and then store past the arrays of
  `run_pipeline` (`PipelineOverrun`; `LaunchExact` gives the exact condition).
- `growproc` by a negative amount larger than the process wraps round and does nothing
  (`Vm.Memory.ShrinkBy`).
- `writei` may store more bytes than it reports (`StoresUnreported`): exactly when the copy from
  user memory fails within a block that it has or gets (`Fs.FileSystem.Writei`).
- The comment in `wakeup` says a process is set back to RUNNING; the code makes it RUNNABLE,
  and so does the model.

## Model

| member | source | states |
|---|---|---|
| `LogFormat.ReplayAt` | xv6/kernel/log.c:67-85 | Copying logged blocks home leaves in every block the last logged copy of it, and every block the log does not name as it was |
| `LogFormat.ReplayAgain` | xv6/kernel/log.c:67-85 | Redo is idempotent: a log replayed over a disk on which any prefix of it was already replayed gives what one replay gives |
| `LogFormat.CrashInRecovery` | xv6/kernel/log.c:118-125 | A crash after any single block write of a recovery, then another recovery, ends in the same home blocks |
| `LogFormat.AnyNumberOfCrashes` | xv6/kernel/log.c:118-125 | The same for any number of boots in a row that crash inside recovery: the first one to complete leaves what the first of all would have left |
| `LogProtocol.CommitPoint` | xv6/kernel/log.c:203-212 | From the header write on, recovery yields the new contents of every home block |
| `LogProtocol.InstallRecovers` | xv6/kernel/log.c:67-85 | With any prefix of the transaction installed, recovery still yields the new contents |
| `LogProtocol.CommitAtomic` | xv6/kernel/log.c:202-212 | After a crash at any of the 2n + 2 writes of a commit, recovery yields all old contents before the header write and all new contents from it on |
| `LogProtocol.CommitStatesAtomic` | xv6/kernel/log.c:202-212 | The whole sequence of disk images of a commit has that property, its length is 2n + 2, and it ends with an empty log and the new contents at home |
| `LogProtocol.CrashAnywhere` | xv6/kernel/log.c:118-212 | The headline theorem in one piece: a crash at any of the writes of a commit, then any number of boots that crash inside recovery, and the first boot to complete finds all old contents before the header write and all new contents from it on |
| `LogProtocol.InstallFromCache` | xv6/kernel/log.c:67-85 | Reading the log back through the cache, install_trans writes what the log on disk holds |
| `LogProtocol.CommitEnds` | xv6/kernel/log.c:202-212 | The last image has an empty log and the new contents at home |
| `Log.SafeBoot` | xv6/kernel/log.c:118-125 | Every disk image from boot through recovery is one that recovers to the recovered contents |
| `Log.SafeAfter` | xv6/kernel/log.c:202-212 | If so far every disk image there ever was recovers to the contents of some commit, in order of the commits, then so it is after one more commit |
| `Log.Log.constructor` | xv6/kernel/log.c:54-64 | A log that is idle, with nothing reserved and nothing promised |
| `Log.Log.BeginOp` | xv6/kernel/log.c:127-150 | Admits exactly when no commit runs and the log has room for the budgets of all open operations and one more; keeps reservations within the log and what is durable |
| `Log.Log.EndOp` | xv6/kernel/log.c:154-172 | The panic on a running commit cannot be reached; the last operation to end, and no other, starts a commit |
| `Log.Log.FinishCommit` | xv6/kernel/log.c:174-184 | Ends a commit only if a recovery from the disk yields what the cache shows; every promise made to a waiting sys_sync whose turn has come is covered by those contents, and an idle log always has this property |
| `Log.Log.SyncStart` | xv6/kernel/log.c:246-258 | If it does not wait, a recovery from the disk as it is yields the contents of a commit that began after every ended operation had ended; if it does, it waits for such a commit |
| `Log.Log.SyncCheck` | xv6/kernel/log.c:252-261 | When the wait ends, a recovery from the disk as it is yields the contents of a commit that began after every operation that had ended before sys_sync was called |
| `Log.Log.WriteLog` | xv6/kernel/log.c:186-200 | The log blocks get the cached contents of the logged blocks, in header order, one disk write each, and no pinned buffer is recycled meanwhile; it fails exactly when no buffer is free |
| `Log.Log.WriteHead` | xv6/kernel/log.c:101-116 | Count and block numbers reach the disk in one block write |
| `Log.Log.ReadHead` | xv6/kernel/log.c:87-99 | The header in memory is the one on disk |
| `Log.Log.InstallTrans` | xv6/kernel/log.c:66-85 | Every logged block goes home in its own write, exactly the pins of the transaction are dropped, and contents as seen through the cache do not change |
| `Log.Log.Commit` | xv6/kernel/log.c:202-212 | Fails exactly when the transaction is not empty and every buffer is referenced, and then before any write; otherwise disk and cache agree on the new contents, the log is empty, all its pins are gone, and each of its writes is a crash point that recovers to all old or all new contents, the header write being the first to recover to new ones |
| `Log.Log.RunCommit` | xv6/kernel/log.c:174-184 | Every disk image since boot, this commit's own writes among them, recovers to the contents of one of the commits, never to an earlier one than the images before it; after it the disk recovers to the contents seen when it began, which covers all operations that had ended |
| `Log.Log.RecoverFromLog` | xv6/kernel/log.c:118-125 | Boot recovery leaves the recovered image on disk and in the cache, through exactly the writes the crash theorem is about, and establishes the invariants of a running log |
| `Log.Log.Get` | xv6/kernel/bio.c:90-102 | A reader gets the last contents written to the block, logged or not, and a reference that keeps them there |
| `Log.Log.Put` | xv6/kernel/bio.c:114-137 | Releasing a buffer loses neither a logged block nor anyone else's reference |
| `Log.Log.Edit` | xv6/kernel/log.c:214-222 | A caller that holds a buffer may change its data before log_write: readers see the change, the disk does not, and the block counts as edited until it is logged |
| `Log.Log.LogWrite` | xv6/kernel/log.c:223-244 | Panics as too big exactly when the log is full, and outside an operation exactly when none is open; within its budget an append never panics; a new block is appended once and pinned, a logged one absorbed; reservations and pins stay exact |
| `Log.ReservedBound` | xv6/kernel/log.c:127-150 | Unused budgets never add up to more than MAXOPBLOCKS for each open operation |
| `Log.FullLogLeavesNoBuffer` | xv6/kernel/log.c:223-244 | A transaction that fills the log pins every buffer of the cache, so that by the contract of Commit it can never commit |
| `FullLog.Fill` | xv6/kernel/log.c:127-150 | Three operations may each log ten blocks: a log with 10, 20 or all 30 of its blocks taken is reached by calls, from any disk that is large enough, and keeps every invariant |
| `FullLog.Close` | xv6/kernel/log.c:154-172 | The three operations that filled the log may all end: the last end_op has set committing, no operation is open, and the log is still full |
| `FullLog.AbsorbingPanics` | xv6/kernel/log.c:223-230 | A reachable state in which log_write of a block already in the log panics, although it would be absorbed |
| `FullLog.FullCommitPanics` | xv6/kernel/log.c:174-177 | The commit that the last end_op of a full log starts finds no buffer: a state that the kernel reaches with every operation within its budget |
| `CommitSteps.Begin` | xv6/kernel/log.c:202-212 | A commit may start to be taken apart into its single writes whenever Commit could run |
| `CommitSteps.LogOne` | xv6/kernel/log.c:186-200 | The next write of write_log, whatever was read since the last one, makes the next disk image of the atomicity theorem; it fails exactly when readers hold every buffer, and then nothing is written |
| `CommitSteps.PutHeader` | xv6/kernel/log.c:101-116 | The same for the header write |
| `CommitSteps.InstallOne` | xv6/kernel/log.c:66-85 | The same for each write of install_trans, which also drops exactly one pin |
| `CommitSteps.ClearHeader` | xv6/kernel/log.c:202-212 | The last write ends the commit: the log is empty, the disk has the new contents, the images are exactly those of the atomicity theorem, and the references readers hold are still theirs |
| `CommitSteps.Read` | xv6/kernel/bio.c:90-102 | A process that reads a home block between any two writes of a commit gets the new contents, and its reference is accounted for |
| `CommitSteps.Release` | xv6/kernel/bio.c:114-137 | Releasing such a buffer between any two writes disturbs neither the commit nor other readers |
| `CommitSteps.AtomicThroughout` | xv6/kernel/log.c:202-212 | However reads were interleaved, every disk image since the commit began recovers to all old contents before the header write and to all new ones from it on |
| `SyncSteps.Start` | xv6/kernel/log.c:174-177 | A commit that end_op starts can be taken apart into its writes with the log durable at the outset |
| `SyncSteps.BookedStep` | xv6/kernel/log.c:186-212 | One more write of a commit: the disk, as it is then, recovers to the last commit there is, which from the header write on is the running one; every earlier disk image still recovers to its own |
| `SyncSteps.Write` | xv6/kernel/log.c:186-212 | The next write of a commit, in the order of the code; it fails exactly when no buffer is free |
| `SyncSteps.Sync` | xv6/kernel/log.c:246-258 | sys_sync called between any two writes of a commit finds a durable log, waits for that commit, and touches nothing the commit uses |
| `SyncSteps.End` | xv6/kernel/log.c:202-212 | The last write leaves an empty, durable log with the commit saved, so that a waiting sys_sync may return |
| `SyncSteps.BookedThroughout` | xv6/kernel/log.c:186-258 | Over every interleaving of a commit's writes with sync calls, the recorded commits and promises stay right at every point |
| `SyncSteps.SyncServed` | xv6/kernel/log.c:246-261 | Whichever two writes of a commit a sync call falls between, after that commit the disk recovers to contents that cover every operation it was called for |
| `LruRing.MoveToFrontLinks` | xv6/kernel/bio.c:126-134 | The six assignments, in their order, keep a doubly linked ring in which one node has moved to the front and all others keep their order |
| `BufferCache.BufferCache.constructor` | xv6/kernel/bio.c:35-52 | An empty cache over the disk, its list a ring of all NBUF buffers |
| `BufferCache.BufferCache.FindCached` | xv6/kernel/bio.c:64-72 | The forward scan terminates and finds the block's buffer exactly if there is one |
| `BufferCache.BufferCache.FindFree` | xv6/kernel/bio.c:74-86 | The backward scan finds, of the buffers nobody references, the one released longest ago |
| `BufferCache.BufferCache.Bget` | xv6/kernel/bio.c:57-88 | Panics exactly when the block is not cached and every buffer is referenced; otherwise one more reference to the block's only buffer, or to the least recently released free one, now the block's |
| `BufferCache.BufferCache.Bread` | xv6/kernel/bio.c:90-102 | The buffer holds the block's current contents, whether they were cached or not, and no other buffer changes |
| `BufferCache.BufferCache.Bwrite` | xv6/kernel/bio.c:104-112 | One block of the disk changes, and that image becomes a crash point |
| `BufferCache.BufferCache.Bpin` | xv6/kernel/bio.c:139-145 | One more reference to one buffer |
| `BufferCache.BufferCache.Bunpin` | xv6/kernel/bio.c:147-153 | One reference less, which may be the last only for contents that are on disk |
| `BufferCache.BufferCache.Brelse` | xv6/kernel/bio.c:114-137 | The list changes exactly when the last reference goes, and then the buffer is in front and the order by last release holds again |
| `BufferCache.RecycleKeeps` | xv6/kernel/bio.c:74-86 | Recycling a buffer nobody references leaves every block with at most one buffer and loses no contents |
| `BufferCache.MoveToFrontRecency` | xv6/kernel/bio.c:126-134 | The list stays ordered by time of last release |
| `RunQueues.RunQueues.constructor` | xv6/kernel/proc.c:53-75 | Four empty queues |
| `RunQueues.RunQueues.Enqueue` | xv6/kernel/proc.c:465-477 | The links, head and tail spell the queue with the process appended, and the other queues as they were |
| `RunQueues.RunQueues.Deque` | xv6/kernel/proc.c:478-491 | The links spell the queue without its first process, which is on no queue now; an empty queue gives null and changes nothing |
| `RunQueues.RunQueues.DequeHighest` | xv6/kernel/proc.c:492-501 | Takes the first process of the first non-empty level |
| `RunQueues.RunQueues.HigherReady` | xv6/kernel/proc.c:517-526 | True exactly when some level above the process's own holds someone |
| `RunQueues.RunQueues.Boost` | xv6/kernel/proc.c:528-550 | Levels 1, 2 and 3 stand behind level 0 in this order, all processes that are RUNNABLE and only these, and every process has priority 0 and a fresh slice |
| `BoundedWaiting.MakeRunnable` | xv6/kernel/proc.c:786-793 | On the linked queues, the machine's step for a process made RUNNABLE |
| `BoundedWaiting.ChargeRunning` | xv6/kernel/trap.c:84-95 | On the linked queues, the machine's charge of the running process: demoted and preempted when its slice is over, preempted when a higher level waits, otherwise left running |
| `BoundedWaiting.BoostIfDue` | xv6/kernel/trap.c:195-217 | On the linked queues, the machine's boost every 48 ticks |
| `BoundedWaiting.TimerInterrupt` | xv6/kernel/trap.c:75-95 | On the linked queues, the machine's tick: the boost when due, then the exit of a killed process that was in user mode, which charges nobody, or else the charge |
| `BoundedWaiting.ScheduleOnce` | xv6/kernel/proc.c:577-598 | On the linked queues, the machine's dispatch; the process found is always RUNNABLE |
| `BoundedWaiting.BoostIsConcat` | xv6/kernel/proc.c:528-543 | The boost drops no one: in every reachable state all queued processes are RUNNABLE |
| `BoundedWaiting.ChargeForces` | xv6/kernel/trap.c:172-182 | While anyone waits on level 0, a tick takes the CPU from whoever runs |
| `BoundedWaiting.BoostTurn` | xv6/kernel/proc.c:528-550 | A boost brings every waiting process to level 0, with no one added ahead of it |
| `BoundedWaiting.TickNearer` | xv6/kernel/trap.c:75-217 | Every tick that finds a process on the CPU brings a waiting process closer, or leaves the CPU free with the next dispatch to make up for it; a tick that only finds a killed process leaves that one deaf to the next |
| `BoundedWaiting.FreePass` | xv6/kernel/proc.c:577-598 | A pass of the scheduler loop, with or without a tick in it, before or after it takes a process off its queue, never puts a waiting process back: its dispatch pays for the tick |
| `BoundedWaiting.OtherTurn` | xv6/kernel/proc.c:695-824 | No event but a tick moves anyone ahead of a waiting process, and none lets a killed process out of its exit |
| `BoundedWaiting.TurnBound` | xv6/kernel/proc.c:577-824 | Every event and the pass that follows it bring the bound of a waiting process down by the ticks that count |
| `BoundedWaiting.StepKeeps` | xv6/kernel/proc.c:465-598 | After every event and pass a queued process is RUNNABLE, on the queue of its own priority and on no other, and the CPU idles only if nobody waits |
| `BoundedWaiting.BootSettled` | xv6/kernel/proc.c:465-598 | That invariant holds in every state of every run from boot |
| `BoundedWaiting.BoundedWait` | xv6/kernel/proc.c:465-550 | Bounded waiting on one CPU: over any run of ticks, yields, sleeps, wakeups, kills, forks, failed forks and exits, a RUNNABLE process is dispatched before it has seen 48 + NPROC ticks that found a process on the CPU, and before 47 + 2 NPROC ticks of any kind, those in the scheduler loop included |
| `QueueMembership.PlaceStep` | xv6/kernel/proc.c:465-550 | Conservation, for any CPU's step: a process moves between places, or enters or leaves one together with becoming RUNNABLE or ceasing to be |
| `QueueMembership.InHandIsRunnable` | xv6/kernel/proc.c:583-597 | The branches of scheduler and boost for a dequeued process that is not RUNNABLE are never taken |
| `QueueMembership.EnqueueIsSafe` | xv6/kernel/proc.c:465-477 | Whoever is about to enqueue a process finds it on no queue, so the link it overwrites is in no list |
| `QueueMembership.StepKeeps` | xv6/kernel/proc.c:465-598 | Every step of every CPU keeps locks, places and running processes consistent |
| `QueueMembership.Boot` | xv6/kernel/proc.c:53-75 | The state after procinit satisfies that invariant |
| `QueueMembership.QueueMembership` | xv6/kernel/proc.c:465-824 | From boot, under every interleaving of any number of CPUs: a RUNNABLE process is on exactly one queue once or in exactly one CPU's hands, any other process is nowhere, queues share and repeat no one, and no process runs on two CPUs |
| `LinkedQueues.LinkedStep` | xv6/kernel/proc.c:465-550 | Every step of every CPU, with its enqueue or deque done by the code on heads, tails and links, leaves lists that spell the machine's queues; what the scheduler goes on with is what deque returns |
| `LinkedQueues.LinkedRun` | xv6/kernel/proc.c:465-598 | So under every interleaving of any number of CPUs, from boot on |
| `SleepLocks.StepKeeps` | xv6/kernel/sleeplock.c:21-44 | Every step of every process, with kills and spurious wakeups anywhere, keeps the lock's invariant |
| `SleepLocks.NoLostWakeup` | xv6/kernel/sleeplock.c:21-44 | In every state of every schedule at most one process owns the lock, and when its spinlock is free no one sleeps on a lock that is not taken |
| `WaitExit.StepKeeps` | xv6/kernel/proc.c:343-462 | Every step of exit, reparenting, wait, fork, wakeup and kill, in any interleaving, keeps the invariant |
| `WaitExit.Boot` | xv6/kernel/proc.c:53-75 | The state with only the init process satisfies that invariant |
| `WaitExit.NoMissedExit` | xv6/kernel/proc.c:343-462 | In every state of every schedule, when wait_lock is free no process sleeps in kwait, or is about to, while it has a zombie child, its own or one passed on to it |
| `Sv39.WordRoundTrip` | xv6/kernel/riscv.h:395-406 | Packing page number and flags into an entry and taking them out again is the identity |
| `Sv39.PxDescends` | xv6/kernel/riscv.h:408-411 | The three nine-bit fields of an address lead from the root to the table responsible for it |
| `Sv39.SlotsDistinct` | xv6/kernel/vm.c:98-116 | Distinct pages below MAXVA have distinct slots |
| `Sv39.LinkShape` | xv6/kernel/vm.c:103-114 | A zeroed page linked where no table was gives a tree with one more, empty table and the same flat map |
| `Sv39.LeafShape` | xv6/kernel/vm.c:146-175 | Writing a leaf slot inserts into, or removes from, the flat map at that page and nowhere else |
| `Sv39.LookUp` | xv6/kernel/vm.c:98-116 | The slot found for a page holds the flat map's entry for it, or an invalid one |
| `PageOwners.SpacesDisjoint` | xv6/kernel/vm.c:193-326 | Two address spaces never share a table or a user page |
| `VmRelations.UsedOnce` | xv6/kernel/vm.c:193-326 | The partition: a page of the pool is free, or one space's table, or one space's user page, or held by the kernel, never two of these |
| `VmRelations.CopiedSame` | xv6/kernel/vm.c:298-326 | Two spaces whose pages below a size agree in presence, rights and bytes, and that map no user page above it, read the same at every user address |
| `VmRelations.FaultedSizes` | xv6/kernel/vm.c:344-405 | Pages added below a process's own size leave every process within its size |
| `VmRelations.LeaflessNext` | xv6/kernel/vm.c:264-280 | The entry in a slot tells exactly whether a page is mapped through it: it is empty, or leads to a table without leaves, if and only if none is |
| `Vm.Memory.constructor` | xv6/kernel/kalloc.c:26-40 | Every page of the pool is on the free list |
| `Vm.Memory.Kfree` | xv6/kernel/kalloc.c:46-63 | Panics exactly outside the pool; otherwise the page is first on the free list, filled with ones |
| `Vm.Memory.Kalloc` | xv6/kernel/kalloc.c:68-82 | A page that nobody owned, filled with fives, or 0 exactly when the pool is exhausted |
| `Vm.Memory.Walk` | xv6/kernel/vm.c:98-116 | Panics exactly at MAXVA and above; otherwise the slot of the page, with missing tables added if asked for, or none exactly when a table is missing and may not or cannot be added; without alloc nothing changes |
| `Vm.Memory.Mappages` | xv6/kernel/vm.c:146-175 | Refines insertion of a range into the flat map; out of memory or at a mapping that is already there, exactly a prefix is mapped; nothing else changes in this or any other space |
| `Vm.Memory.Uvmunmap` | xv6/kernel/vm.c:193-213 | Refines removal of a range, present or not; pages go back to the pool exactly if asked; panics exactly on a misaligned or too high range |
| `Vm.Memory.Uvmcreate` | xv6/kernel/vm.c:179-188 | A space that maps nothing, or 0 exactly when no page is left |
| `Vm.Memory.Uvmalloc` | xv6/kernel/vm.c:217-242 | Zeroed pages for exactly the new range; on failure all of them are returned and at most page tables are left over |
| `Vm.Memory.Uvmdealloc` | xv6/kernel/vm.c:248-260 | Exactly the pages between the two sizes go back to the pool |
| `Vm.Memory.Freewalk` | xv6/kernel/vm.c:264-280 | All tables of a subtree go back to the pool, each once; it panics exactly when a page is still mapped below it |
| `Vm.Memory.Uvmfree` | xv6/kernel/vm.c:284-290 | All user pages and all tables of the space go back to the pool; it panics exactly when a page is mapped at or above the size |
| `Vm.Memory.Uvmcopy` | xv6/kernel/vm.c:298-326 | The child's memory is the parent's, in pages of its own; on failure the child has none and at most tables are left over |
| `Vm.Memory.Walkaddr` | xv6/kernel/vm.c:121-139 | The page exactly of what users may see; nothing changes |
| `Vm.Memory.IsMapped` | xv6/kernel/vm.c:480-491 | True exactly for a page the flat map has, user page or not; nothing changes |
| `Vm.Memory.Vmfault` | xv6/kernel/vm.c:458-478 | Adds at most the one missing page, zeroed and below the size, and no user memory looks different |
| `Vm.Memory.Copyout` | xv6/kernel/vm.c:344-377 | Exactly a prefix of the bytes is stored, all of them if it succeeds, across pages and lazily allocated ones; all other user memory, of every space, reads as before; it fails only past MAXVA or where user memory is not writable; the pages it adds were free and lie below the size, so no process outgrows its size |
| `Vm.Memory.Copyin` | xv6/kernel/vm.c:382-405 | Returns user memory as it was, changes none, and fails only past MAXVA or where it is not readable; the pages it adds were free and lie below the size, so no process outgrows its size |
| `Vm.Memory.CopyRoundTrip` | xv6/kernel/vm.c:344-405 | copyout then copyin of the same range returns the same bytes |
| `Vm.Memory.ProcPagetable` | xv6/kernel/proc.c:204-234 | Trampoline and trapframe are mapped and nothing else, or 0 with every page where it was |
| `Vm.Memory.ProcFreepagetable` | xv6/kernel/proc.c:238-244 | Every page and table of the process goes back to the pool, and no panic is reached |
| `Vm.Memory.Create` | xv6/kernel/proc.c:158-164 | A process of size 0, or 0 with every page where it was |
| `Vm.Memory.GrowBy` | xv6/kernel/proc.c:266-276 | Zeroed pages up to the new size, or -1 with size and user memory as they were |
| `Vm.Memory.ShrinkBy` | xv6/kernel/proc.c:277-285 | Exactly the pages beyond the new size are freed; shrinking by more than there is wraps round and does nothing |
| `Vm.Memory.SbrkLazy` | xv6/kernel/sysproc.c:54-64 | The size grows, up to the trapframe, and no page is taken |
| `Vm.Memory.Fault` | xv6/kernel/vm.c:458-478 | A fault below the size makes the page writable and changes no memory; user leaves stay below the size |
| `Vm.Memory.Fork` | xv6/kernel/proc.c:290-307 | The child reads the parent's memory at every user address, in pages of its own, or every page is where it was, after any out-of-memory failure |
| `Files.MaskBits` | xv6/kernel/fs.c:67-107 | The byte operations of balloc and bfree set and clear one bit and no other |
| `Files.OneOwner` | xv6/kernel/fs.c:67-107 | Between operations a bit of the bitmap is set exactly for metadata and for the blocks of files; a block is never both, belongs to one file only, and is in one place of it |
| `Files.AssignInv` | xv6/kernel/fs.c:420-459 | Entering a new block for a file, directly or in its indirect block, keeps every block with one owner |
| `Files.PatchWrote` | xv6/kernel/fs.c:543-579 | Bytes copied into one block change that file at that place and no other file |
| `Files.RoundEnds` | xv6/kernel/fs.c:543-579 | How a round of writei ends, exactly: bytes that reach the disk and are not counted are those before a failing copy within a block |
| `Files.ChunkStep` | xv6/kernel/file.c:148-173 | The same over the chunks of filewrite, the last of which may count nothing although bytes were stored |
| `Files.WroteSplice` | xv6/kernel/fs.c:543-579 | Bytes written within or at the end of a file make its contents the splice |
| `Files.WroteKeeps` | xv6/kernel/fs.c:543-579 | A write to one file leaves the contents of every other file |
| `Files.FreedStep` | xv6/kernel/fs.c:463-491 | The next block itrunc frees is still marked in use, whatever it freed before |
| `Files.AllFreed` | xv6/kernel/fs.c:463-491 | After its loops exactly the file's own bits are clear |
| `Files.Footprint` | xv6/kernel/file.c:148-173 | Up to four file blocks, the indirect block, the inode and the bitmap block: at most seven distinct blocks, if the bitmap is one block |
| `Fs.FileSystem.constructor` | xv6/kernel/fs.c:67-90 | All blocks but the metadata are free, and there is no file |
| `Fs.FileSystem.Balloc` | xv6/kernel/fs.c:67-90 | The lowest free block, zeroed and marked; 0 exactly when every bit is set |
| `Fs.FileSystem.Bfree` | xv6/kernel/fs.c:93-107 | Panics exactly on a bit that is clear; otherwise that bit and no other is cleared |
| `Fs.FileSystem.Bmap` | xv6/kernel/fs.c:420-459 | The block of the file block, direct or indirect, old or new; no file reads differently, no other block moves, it panics exactly past MAXFILE, and fails only on a full disk |
| `Fs.FileSystem.Writei` | xv6/kernel/fs.c:543-579 | Refused exactly past the size, past MAXFILE or when the offset wraps; otherwise the bytes stored are a prefix, and more are stored than reported exactly when the copy from user memory fails within a block and the disk has room for it, by less than a block; it stops short otherwise only on a full disk; the contents are the splice when all is written, every other file is unchanged, and the blocks logged are those named |
| `Fs.StoresUnreported` | xv6/kernel/fs.c:543-579 | A write of which one byte reaches the file and none is reported |
| `Fs.FileSystem.Readi` | xv6/kernel/fs.c:509-534 | A slice of the file's contents, cut off at its end; nothing changes, no block is allocated |
| `Fs.FileSystem.Filewrite` | xv6/kernel/file.c:148-173 | The chunks cover the request exactly; the contents are the splice when it succeeds, and when not, exactly a prefix was stored, beyond the new offset only at a failing copy and by less than a block; the blocks taken are this file's, every other file is unchanged, and no transaction logs more than 7 of its MAXOPBLOCKS blocks |
| `Fs.FileSystem.Itrunc` | xv6/kernel/fs.c:463-491 | The file is empty, exactly its own blocks are free, and the panic on a free block is not reached |
| `Fs.FileSystem.Ialloc` | xv6/kernel/fs.c:200-221 | The lowest inode number without a file on disk; 0 exactly when all have one |
| `Fs.FileSystem.Ifree` | xv6/kernel/fs.c:360-372 | The inode is free in memory and on disk, and no block changes hands |
| `Fs.FileSystem.Iput` | xv6/kernel/fs.c:349-378 | Dropping the last reference to an unlinked file, and only that, frees exactly its inode and its blocks; any other drop changes the count alone |
| `FreeRing.InsertAfter` | xv6/user/umalloc.c:33-43 | Redirecting the two links puts a block into the ring after another and moves no one else |
| `HeapTiles.UnitsConserved` | xv6/user/umalloc.c:24-90 | Free and live units together are those obtained from sbrk |
| `HeapTiles.TilesDisjoint` | xv6/user/umalloc.c:24-90 | Blocks, free or live, do not overlap |
| `HeapTiles.FreedKeeps` | xv6/user/umalloc.c:24-44 | Freeing, with its merges, keeps the heap tiled and leaves no two adjacent free blocks |
| `HeapTiles.TakenKeeps` | xv6/user/umalloc.c:75-84 | Taking all or the tail of a free block keeps the heap tiled and merged |
| `HeapTiles.NextTest` | xv6/user/umalloc.c:33-37 | The first test of free succeeds exactly when the next block of the heap is free |
| `HeapTiles.PrevTest` | xv6/user/umalloc.c:38-42 | The second test of free succeeds exactly when the block before is free |
| `HeapTiles.FreedNodes` | xv6/user/umalloc.c:33-43 | The ring after free is the address-ordered list of free blocks of the merged heap |
| `HeapTiles.TakenNodes` | xv6/user/umalloc.c:75-84 | The ring loses a block exactly when all of it is taken |
| `HeapTiles.FreedLive` | xv6/user/umalloc.c:24-44 | Exactly the freed block stops being live |
| `HeapTiles.TakenLive` | xv6/user/umalloc.c:63-90 | Exactly the block handed out becomes live |
| `Umalloc.StopsOnlyAtPlace` | xv6/user/umalloc.c:29-32 | The search of free stops at one place of the ring only: the last free block below the one freed, or the wrap-around |
| `Umalloc.FreeConsistent` | xv6/user/umalloc.c:24-44 | The links and sizes free writes describe the merged heap |
| `Umalloc.TakeConsistent` | xv6/user/umalloc.c:75-84 | The links and sizes malloc writes describe the heap with the block taken |
| `Umalloc.GrowConsistent` | xv6/user/umalloc.c:46-61 | A block from sbrk at the end of the heap keeps ring and sizes consistent |
| `Umalloc.LiveDisjoint` | xv6/user/umalloc.c:63-90 | Two live blocks share no unit |
| `Umalloc.RequestExact` | xv6/user/umalloc.c:46-61 | sbrk moves the break by as many units as morecore records exactly when they are fewer than 2^27; for more, the break ends up below the block recorded |
| `Umalloc.HugeRequest` | xv6/user/umalloc.c:46-90 | malloc(0xFFFFFFF0) on a new heap succeeds, and the block it returns lies wholly beyond a break that did not move |
| `Umalloc.Allocator.Search` | xv6/user/umalloc.c:29-32 | From wherever freep stands, the search terminates at that place |
| `Umalloc.Allocator.Free` | xv6/user/umalloc.c:24-44 | The block is no longer live, every other live block is untouched, the ring is ordered, circular and fully merged, and freep is on it |
| `Umalloc.Allocator.Morecore` | xv6/user/umalloc.c:46-61 | At least the units asked for are on the ring as one block and no live block changes, even when they merge into the block at freep; or sbrk refused and nothing changed; the break covers them exactly below 2^27 units |
| `Umalloc.Allocator.Find` | xv6/user/umalloc.c:74-89 | The search terminates, with a block that is large enough and its predecessor, or when sbrk refused and no block on the ring is large enough |
| `Umalloc.Allocator.Malloc` | xv6/user/umalloc.c:63-90 | A block that was not live before, with room for nbytes and a header, disjoint from all others; 0 only when no free block is large enough and sbrk refuses, and then no live block has changed; memory backs the whole heap afterwards if and only if it did not grow by 2^27 units or more, and it grows only when no free block is large enough |
| `Virtqueue.NewChain` | xv6/kernel/virtio_disk.c:226-268 | Three free descriptors become a chain; chains and free descriptors still partition all NUM |
| `Virtqueue.IndicesTell` | xv6/kernel/virtio_disk.c:300-333 | 16-bit indices at most NUM apart agree exactly when they count the same, and pick the ring slot the count picks |
| `Virtqueue.RingAdd` | xv6/kernel/virtio_disk.c:274-280 | A head put into the ring overwrites no entry that is still to be consumed |
| `Virtqueue.IndexedEmpty` | xv6/kernel/virtio_disk.c:315-318 | The wrapped indices are equal exactly when nothing is outstanding |
| `Virtqueue.Disk.constructor` | xv6/kernel/virtio_disk.c:62-154 | All descriptors free, nothing in flight |
| `Virtqueue.Disk.AllocDesc` | xv6/kernel/virtio_disk.c:156-166 | The lowest free descriptor, or -1 exactly when none is free |
| `Virtqueue.Disk.FreeDesc` | xv6/kernel/virtio_disk.c:169-182 | Panics exactly on an index out of range or a descriptor that is free |
| `Virtqueue.Disk.Alloc3Desc` | xv6/kernel/virtio_disk.c:201-213 | Three distinct free descriptors; or none, and then exactly the free set it found, of two at most, is restored |
| `Virtqueue.Disk.Submit` | xv6/kernel/virtio_disk.c:215-284 | A new request with descriptors of its own, posted behind all others; or fewer than three were free and nothing changed |
| `Virtqueue.Disk.DeviceTake` | xv6/kernel/virtio_disk.c:238-280 | The device takes requests in the order posted, and reads from the chain the operation, the buffer and the status byte of that request |
| `Virtqueue.Disk.DeviceComplete` | xv6/kernel/virtio_disk.c:315-330 | The device completes what it has taken in any order; a write puts the data of that request's buffer into that request's sector and nothing else, a read does the reverse, and a failed operation moves nothing |
| `Virtqueue.Disk.IntrStep` | xv6/kernel/virtio_disk.c:318-330 | Each completion is seen once, in the order of completion, and releases exactly its own buffer; it panics exactly on a status that is not zero |
| `Virtqueue.Disk.Intr` | xv6/kernel/virtio_disk.c:300-333 | Exactly the completions before the first failed one are seen, all of them if none failed; it panics exactly if one failed, and then on the oldest such; no other request is touched |
| `Virtqueue.Disk.FreeChain` | xv6/kernel/virtio_disk.c:185-197 | The loop ends after the three descriptors of the chain, none of which was free |
| `Virtqueue.Disk.Finish` | xv6/kernel/virtio_disk.c:286-298 | Exactly the three descriptors of the finished request become free |
| `Pipes.CountersTell` | xv6/kernel/pipe.c:76-143 | 32-bit counters of bytes at most PIPESIZE apart tell empty and full exactly, and index the same slot, across wrap-around |
| `Pipes.Pipe.constructor` | xv6/kernel/pipe.c:22-56 | Both ends open, nothing accepted |
| `Pipes.Pipe.Close` | xv6/kernel/pipe.c:58-74 | Closes one end, keeps the bytes, and frees the pipe exactly when the other end was closed before |
| `Pipes.Pipe.Write` | xv6/kernel/pipe.c:76-109 | Exactly the bytes counted are accepted, in order, behind all earlier ones; it sleeps only when the ring is full, and gives up only for a closed reader, a kill or unreadable memory |
| `Pipes.Pipe.Read` | xv6/kernel/pipe.c:111-143 | The bytes delivered continue those delivered before in the order accepted, none lost, repeated or overwritten; it sleeps only when the ring is empty and the write end open |
| `Grep.HereStar` | xv6/user/grep.c:91-92 | The language of c* followed by re is any run of c and then re, so matchstar's loop asks the right question |
| `Grep.HereChar` | xv6/user/grep.c:95-96 | One ordinary character, or a dot, against one character of text |
| `Grep.MatchHere` | xv6/user/grep.c:85-97 | True exactly when some prefix of the text is in the language of re, all of it under a final $ |
| `Grep.MatchStar` | xv6/user/grep.c:100-108 | True exactly when re matches after some run of c |
| `Grep.Match` | xv6/user/grep.c:72-82 | True exactly when some suffix of the text, the whole of it under ^, starts with a string of the language |
| `Lexer.QuoteBack` | c-shell/src/lexer.c:39-94 | A word written bare, with backslashes, or between single or double quotes, where that style can write it, is read back as that word |
| `Lexer.LexOne` | c-shell/src/lexer.c:95-159 | The first token of a line is the one written there, and the rest of the line is read as if it stood alone |
| `Lexer.RoundTrip` | c-shell/src/lexer.c:95-159 | Any list of tokens, operators and words alike, empty words too, each word written in any style that can write it, joined with spaces, lexes back to those tokens |
| `Lexer.BackslashQuote` | c-shell/src/lexer.c:39-48 | Takes the next character as it is, or fails exactly at the end of the line |
| `Lexer.DoubleQuote` | c-shell/src/lexer.c:49-81 | Reads the quoted part with its escapes, or fails exactly if it is not closed; the word never gets ahead of the line |
| `Lexer.SingleQuote` | c-shell/src/lexer.c:82-94 | Reads the quoted part as it is, or fails exactly if it is not closed |
| `Lexer.ReadWord` | c-shell/src/lexer.c:127-156 | The word up to an unquoted space or operator, within the 1024 characters of its buffer |
| `Lexer.Lexing` | c-shell/src/lexer.c:95-159 | For every line that fits the input buffer, exactly its tokens, or failure exactly when a quote or an escape is left open |
| `Parser.TokenParser.ParseArg` | c-shell/src/parser.c:17-50 | Accepts exactly if from here every operator but a final & has a word after it |
| `Parser.TokenParser.ParseCmd` | c-shell/src/parser.c:51-60 | Accepts exactly if a word is next and that condition holds from here on |
| `Parser.TokenParser.ParseTgt` | c-shell/src/parser.c:61-70 | Accepts exactly if a word, the target, is next and that condition holds from here on |
| `Parser.TokenParser.ParseBg` | c-shell/src/parser.c:71-80 | Accepts exactly the end of the line, or what a command may begin with |
| `Parser.TokenParser.ParseLine` | c-shell/src/parser.c:7-16 | Accepts exactly the empty line, or what a command may begin with |
| `Parser.TokenParser.Parsing` | c-shell/src/parser.c:81-88 | Accepts exactly the lines that are empty or begin with a word and have a word after every operator but a final & |
| `Splitter.StageExact` | c-shell/src/command.c:19-58 | The tokens of a stage come apart into the arguments, inputs and outputs they say exactly when no argument is spelled <, > or >>, no output file <, at most 99 words are kept and at most 100 input files found; if only the room is missing, a store goes past the end of an array |
| `Splitter.SingleExact` | c-shell/src/command.c:60-113 | The same for a command without bars, where moreover no argument and no output file may be spelled ; or & |
| `Splitter.CommandExact` | c-shell/src/command.c:771-836 | The same for one command of the line, with bars or without |
| `Splitter.SplitExact` | c-shell/src/sequence.c:9-56 | An accepted line is split without a refusal into exactly the jobs its tokens say if and only if no word of it is taken for an operator and every stage has room; if only room is missing, a store goes past the end of an array |
| `Splitter.AcceptedIsSplit` | c-shell/src/sequence.c:9-56 | In particular whenever no word spells an operator and every stage has room |
| `Splitter.QuotedOperatorRefused` | c-shell/src/command.c:60-113 | The line echo ">" is accepted by the parser and refused by the splitter |
| `Splitter.QuotedOperatorMissplit` | c-shell/src/command.c:60-82 | The line cat "<" x, whose command has two arguments, is run with one input file and none, and nothing is refused |
| `Splitter.HundredWordsOverrun` | c-shell/src/command.c:60-82 | A line of a hundred one-letter words, 199 characters long, passes lexer and parser and makes the splitter store past the end of argv |
| `Splitter.JobsCount` | c-shell/src/sequence.c:9-56 | Arguments and redirection targets of all jobs together are the words of the line, each as often as it occurs |
| `Splitter.CommandsThere` | c-shell/src/sequence.c:9-56 | Every stage of every job of an accepted line has a command |
| `Splitter.ParseOutputRedirection` | c-shell/src/command.c:84-113 | Compacts argv in place, keeping order, and lists the output files |
| `Splitter.InputPass` | c-shell/src/command.c:19-82 | Arguments and input files up to the end of the command, in order; a store goes past the end of an array exactly when there is no room |
| `Splitter.ParseTokens` | c-shell/src/command.c:19-113 | A stage, or a command without bars, by the input pass and then the output pass: refused exactly for a redirection without a file or without a command |
| `Splitter.HasPipeline` | c-shell/src/command.c:401-409 | True exactly when a bar comes before the command ends |
| `Splitter.ParsePipeline` | c-shell/src/command.c:411-446 | One stage between any two bars, as many as were counted for the allocation |
| `Splitter.ParseCommand` | c-shell/src/command.c:771-836 | A command with bars goes to the pipeline parser, any other to the two passes |
| `Splitter.SequenceCommand` | c-shell/src/sequence.c:9-56 | The jobs of the line in order, foreground or background by their separator; commands that are refused are passed over, and a store past an array ends it |
| `Pipelines.StageCount` | c-shell/src/command.c:411-446 | A command comes apart into one stage more than it has bars |
| `Pipelines.InitChildren` | c-shell/src/command.c:448-460 | Starting a pipeline stores past the end of its arrays exactly when it has more than a hundred stages |
| `Pipelines.LaunchExact` | c-shell/src/command.c:448-460 | An accepted line is split as its tokens say and all its pipelines have room if and only if no word is taken for an operator, every stage fits, and no command has a hundred bars |
| `Pipelines.PipelineOverrun` | c-shell/src/command.c:448-460 | A line of 101 one-letter commands, 401 characters long, is accepted and split as it should be, and its pipeline has a stage too many |

## Left out

- Assembly, trap entry, control registers, UART, PLIC, boot and the kernel's own page table: hardware. Switching context is a change of state, a spinlock an atomic section.
- The FIFO and round-robin scheduler branches, tick statistics, trace and metric printing: simple.
- `copyinstr`, `uvmclear`, `kexec`, directories, path names, `iget` and the inode cache, `fileclose` and file reference counts: they would add easier members only.
- Running jobs: fork, exec, pipes between processes, job control, signals and the shell's built-in commands. `sequence_command` ends early when a command is not found; the model splits the whole line.
- Lexer.Lexing: for lines shorter than 1024 characters, which is what the shell's input buffer holds; lines hold no NUL.
- Splitter.InputPass: a terminating NULL counts as a store, but what it leaves in the array is not modelled; after the first store past an array nothing more is said.
- BufferCache.BufferCache.Bread: one device, and buffers without their sleep locks; `SleepLocks` has the lock itself.
- BufferCache.BufferCache.Bwrite: a block write is atomic and ordered, as the driver waits for each one.
- CommitSteps.LogOne: reads and sync calls come between two block writes, not inside the reading and copying of one block.
- Log.Log.BeginOp: one pass of the loop under the lock; sleeping and trying again is left to the caller. The count of commits is unbounded.
- BoundedWaiting.BoundedWait: one CPU; a pass of its scheduler loop takes at most one tick, as it is shorter than the time between two.
- QueueMembership.QueueMembership: the level a process is put on is arbitrary, which covers every value of its priority.
- WaitExit.NoMissedExit: the channel a process waits on in `kwait` is its own, so a wakeup there concerns that process alone.
- Vm.Memory.Mappages: at least one of the permissions read, write and execute, without which the entry would read as a link to a table; and pages that are in hand where a user range is mapped, as every caller has it.
- Vm.Memory.Uvmunmap: pages are freed only below the trapframe, as every caller has it; the pages above belong to the kernel text and to the process structure.
- Vm.Memory.Uvmfree: sizes up to the trapframe, which every process has.
- Vm.Memory.Uvmalloc: sizes up to the trapframe, which `growproc` checks first.
- Vm.Memory.Fork: memory only; the page of the trapframe is the caller's, and registers, open files and names are not copied. A page serves either as bytes or as page table entries, not as both.
- Fs.FileSystem.Writei: over a block store without the cache, for an inode that is locked; the type, device and link count of inodes are not part of them, and where a copy to or from user memory fails is a parameter. The bitmap is taken bit by bit (`MaskBits`).
- Fs.FileSystem.Iput: the count of references, the valid flag and the link count are parameters.
- Umalloc.Allocator.Malloc: calls after a request that left part of the heap without memory are not covered; whether `sbrk` grants memory is a parameter, and it is called from `morecore` only.
- Virtqueue.Disk.Submit: up to the wait, in one stretch under the lock, on a buffer its caller has locked; the sector is computed in 32 bits as in the code. Memory barriers and the features agreed with the device are left out.
- Virtqueue.Disk.DeviceComplete: the device's side is the model's; it moves the data of a request in one step.
- Pipes.Pipe.Write: one stretch under the lock; a sleeping writer goes on from the byte it reached.
