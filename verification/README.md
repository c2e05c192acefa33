# A verified model of the kernel, the file system and the shell

The repository holds a JOS-style kernel with a multi-level feedback queue scheduler and a user library
(`scheduler/`), an inode file system over FUSE (`file_system/`) and a small shell (`shell/`). This project models
their hard parts in Dafny and proves what they promise, for all inputs and all runs. Where the code breaks a
promise, it proves exactly when.

Check it with `dafny verify dfyconfig.toml` (Dafny 4.11).

## How it is built

Each part comes in three layers. A state is a value (a datatype), and each C function is a Dafny function on it with
the same branches, errors and constants. Lemmas prove what the operations promise. Where the C code changes memory in
place, a class with the same arrays and fields has methods with the same loops, and each method is proved to compute
its function, so what is proved about the function holds of the code in place.

| files | part |
|---|---|
| `IntrusiveList`, `PageModel`, `PageProofs`, `AddressSpace`, `Lifetime`, `Pmap`, `UserMem`, `MemoryExamples` | physical pages, reference counts, two-level page tables, address spaces |
| `CowFork`, `CowRefinement`, `CowInterleaved`, `Fork` | copy-on-write `fork` and `pgfault` in user space |
| `MlfqModel`, `MlfqProofs`, `MlfqRuns`, `MlfqFairness`, `Mlfq` | the four rings of the scheduler |
| `Smp`, `SmpAssumptions` | N processors, the big kernel lock, traps and dispatch |
| `EnvIds`, `Ipc`, `IpcAssumptions` | environment ids, the environment free list, the IPC rendezvous |
| `CString`, `DirectoryText`, `FsModel`, `FsProofs`, `FsRuns`, `FileSystem`, `SaveLoad`, `FsExamples` | path table, directory texts, image on disk |
| `Stab` | the debugger's binary search |
| `ShellCommand`, `ShellParse`, `ShellBuffer`, `ShellExec`, `ShellPipeline` | the parser, descriptor wiring, and both together |
| `Number`, `Arithmetic`, `Sequences` | `printnum` and `strtol`; division facts; repeated elements |

**Memory.** `PageModel.Inv` says: for every page that boot does not reserve, `pp_ref` is the number of slots (user
entries, user directory entries, `env_pgdir` roots) that refer to it; the free list is a chain without repetition that
holds exactly the pages with count 0; page tables and directories are each referred to once; every user entry is 0 or
has the present bit, which is why the logical `&&` in `*pte && PTE_P` tests presence. `FlatAt` reads the two levels as
one map. `loose` names pages that are allocated and not mapped yet (or were lost), `held` a page whose count is one
ahead of its entry inside `page_insert`. Entries and directories follow 32-bit paging, section 4.3 of volume 3A of
the Intel manual.

**Copy-on-write.** `ViewAt` is what an environment reads at a page and whether it may write there, through its entry
or after a fault. The eager system keeps one such view per environment and page and copies them all at a fork.
`CowInterleaved` takes a fork apart into its beginning, one step for each page and its end, and `pgfault` into two steps;
all other environments run in between, and the eager system copies one page at a step.

**Scheduler.** `Dispatched`, `Placed`, `PassedOver` say in terms of queue contents what a dispatch does, that every
entry is single and in the queue its `cola_actual` names, and that a run of `sched_yield` calls never picks an
environment that stays RUNNABLE.

**Processors.** `Smp` steps each processor through single instructions of `trap`, `spin_lock` and `spin_unlock` and
through whole pieces of kernel work. An interleaving is any sequence of steps.

**Assumptions and what becomes of them.** `Smp.SafeInEveryRun` and `Ipc.Lossless` hold of runs in which callers keep
to `Assumed`. `SmpAssumptions` and `IpcAssumptions` take one call that does not, in any state such runs reach, and say
exactly when every run that follows it keeps the promise all the same (`SafeForever`); each also leads a run from the
start to a state in which the promise is broken.

**File system.** A table is sound when live paths are distinct, every live path has a live directory as parent, each
directory's text lists exactly its live children once each, and `inode_amount` counts the live inodes.

## What the proofs found

- `env_page_alloc` loses its page when `page_insert` fails: counts and free list are exact afterwards if and only if
  the last free page was not needed for a page table (`Lifetime.AllocAtExactIff`; a machine where it happens:
  `MemoryExamples.LosesItsPage`). Its own comment asks for the page to be freed.
- `sys_page_map` passes the caller's whole `perm` on and `page_insert` ORs it into the entry. Bits above the twelve
  flags change the page number there but not the page that is counted: the counts stay exact if and only if the call
  fails or those bits are set in the page number already (`PageProofs.InsertKeepsIff`, `Lifetime.MapAtCorrect`). With
  `perm` 0x1005 an environment maps its own page table (`MemoryExamples.MapsItsPageTable`).
- `pp_ref` has 16 bits: at 2^16 - 1 references `page_insert` keeps the counts exact if and only if it maps the page
  where it is mapped already, or fails (`PageProofs.InsertAtLimit`).
- `user_mem_check` computes the rounded end of the range in 32 bits. Where it wraps, the test agrees with the use of
  every byte if and only if it refuses the range (`UserMem.CheckCoversRange`); va 0x1000 with len 0xffffffff is
  accepted in every memory (`UserMem.WholeSpaceAccepted`).
- The second panic of `page_free` does not see a page that is the last of the free list, whose link is NULL: freeing it
  again turns the list into a cycle (`Pmap.Memory.PageFree`, `IntrusiveList.TailInFrontAgain`).
- `env_free` leaves the ids of dead environments in the rings and nothing tests for a full ring. While no slot is
  recycled there is always room (`MlfqRuns.RoomInEveryRun`); after NENV - 1 children that came and went in one slot the
  next one overwrites the entry of their parent (`MlfqRuns.ParentOverwritten`).
- `env_destroy` of an environment that is DYING frees it under the processor that runs it
  (`SmpAssumptions.DestroySafeIff`, and from boot `FreedUnderProcessor`). `sys_env_set_status` on an environment that
  runs elsewhere lets it run on two processors (`SmpAssumptions.SetStatusSafeIff`, `StoppedElsewhere`).
- `sys_ipc_recv` marks its caller as receiving before it looks at `dstva`, so a refused call leaves it open to sends: it
  can come to run on two processors (`SmpAssumptions.ReceiveSafeIff`, `RefusedReceive`), and a message sent to it
  counts as delivered and is never returned (`IpcAssumptions.ReceiveSafeIff`, `SentAndNotReturned`, `LostForGood`). The
  comment above it takes an address at or above UTOP to mean "no page"; the code refuses it.
- `mkdir` and `create` report success when the parent does not exist: `add_dentry_to_parent_dir` returns `-ERROR`,
  which is +1. The new inode stays in the table without a directory entry, as it does after `-ENOTDIR`
  (`FsRuns.MakeResult`, `FsRuns.MakeKeepsIff`, `FsExamples.MadeWithoutParent`).
- `rmdir` of an empty root removes it and leaves `inode_amount` unchanged (`FsRuns.RmdirKeepsIff`,
  `FsExamples.RootRemoved`).
- `serialize` stops at index `inode_amount`, so live inodes behind a gap are lost (`SaveLoad.RemountSoundIff`): after
  `mkdir /a`, `mkdir /b`, `rmdir /a` the next mount has no `/b` (`FsExamples.LostAtRemount`).
- `stab_binsearch` looks for `addr + 1` after an exact match and can end one stab too far
  (`Stab.CorrectEverywhereIff`, `Stab.CorrectIffSafe`, `Stab.NextAddressMisleads`). Its comment says the range is empty
  when no stab contains the address; it is empty exactly when there is no stab of the type (`Stab.EmptyIff`,
  `Stab.NotEmptyThoughAbove`).
- `cmd < file` also sends standard error to standard output, because two empty file names compare equal
  (`ShellExec.StderrKeptIff`, `ShellExec.ErrorsIntoPipe`).

## Model

| member | source | states |
|---|---|---|
| IntrusiveList.ChainIsDistinct | scheduler/kern/pmap.c:328-330 | a link-threaded list that ends visits no element twice and stays in range |
| IntrusiveList.ChainIsUnique | scheduler/kern/pmap.c:352-354 | a head determines its list |
| IntrusiveList.TailInFrontAgain | scheduler/kern/pmap.c:366-377 | putting the last element of a list in front once more leaves no list at all: following the links never ends |
| PageProofs.EnsureTableCorrect | scheduler/kern/pmap.c:412-429 | creating a page table on demand keeps counts and free list exact and changes no mapping of any environment; it fails only with no page free, and then changes nothing |
| PageProofs.RemoveCorrect | scheduler/kern/pmap.c:549-568 | page_remove keeps counts and free list exact, clears the entry at va in the flat map and changes no other entry of any environment |
| PageProofs.IncrefCorrect | scheduler/kern/pmap.c:499-500 | counting the new reference before the old one is dropped keeps the invariant with that page held |
| PageProofs.WriteEntryCorrect | scheduler/kern/pmap.c:501-502 | writing the entry turns the count taken in advance into a reference, and only that entry of the flat map changes |
| PageProofs.InsertCorrect | scheduler/kern/pmap.c:489-505 | page_insert with a perm that leaves the page number as it is maps the page at va and changes no other entry of any environment, keeps counts and free list exact, re-insertion at the same va included, and fails without effect |
| PageProofs.InsertKeepsIff | scheduler/kern/pmap.c:489-505 | for every perm: page_insert writes the one entry, and keeps counts and free list exact if and only if it fails, or perm leaves the page number as it is and the 16-bit count has room or the page is mapped at va already |
| PageProofs.InsertAtLimit | scheduler/kern/pmap.c:489-505 | with a full 16-bit count the counts stay exact if and only if the page is mapped at va already under the same number, or the call fails because no page table exists and no page is free |
| AddressSpace.SetupVmCorrect | scheduler/kern/env.c:162-196 | env_setup_vm gives an address space with nothing mapped below UTOP, changes no mapping of others, keeps counts exact, and fails only with no page free |
| AddressSpace.FreeTableCorrect | scheduler/kern/env.c:448-452 | the inner loop of env_free unmaps exactly the entries of one page table |
| AddressSpace.DropTableCorrect | scheduler/kern/env.c:454-456 | an emptied page table goes back: its directory entry and its page, counts exact |
| AddressSpace.FreeDirsCorrect | scheduler/kern/env.c:437-457 | after n directory entries nothing is mapped below them and everything else is kept |
| AddressSpace.FreeEnvCorrect | scheduler/kern/env.c:421-468 | env_free gives up every mapping, table and directory of the environment, every other environment keeps each of its mappings, counts and free list stay exact |
| Lifetime.AllocCorrect | scheduler/kern/pmap.c:346-360 | page_alloc hands out a page that nothing refers to and changes no mapping |
| Lifetime.AllocAtCorrect | scheduler/kern/syscall.c:49-61 | env_page_alloc maps a zeroed page of its own; refused permissions and lack of memory change nothing; when page_insert fails the page is lost and nothing else is |
| Lifetime.AllocAtExactIff | scheduler/kern/syscall.c:49-61 | counts and free list are exact afterwards if and only if no page was lost, told by the free list and the directory entry before the call |
| Lifetime.MapAtCorrect | scheduler/kern/syscall.c:64-76 | env_page_map for every perm: it writes one entry, with write access only where the source has it, changes nothing on failure, and keeps counts and free list exact if and only if it fails, or perm leaves the page number as it is and the count has room |
| Lifetime.MapsAnotherPage | scheduler/kern/syscall.c:273-303 | mapping page 2 again with perm 0x1005 writes an entry for page 3 and breaks the counts |
| Lifetime.MappedIsUser | scheduler/inc/mmu.h:29-42 | a mapped page is never a page table, a directory or free |
| Lifetime.StepCorrect | scheduler/kern/syscall.c:230-323 | one mapping call keeps counts exact, up to the page it loses, if and only if it fails or leaves its page number as it is with room in the count; the mappings of every other environment it keeps always |
| Lifetime.RunCorrect | scheduler/kern/syscall.c:230-323 | any sequence of mapping calls, whatever their perm, each of which fails or leaves its page number as it is with room in the count, keeps counts exact and the mappings of every other environment |
| Lifetime.SameReferences | scheduler/kern/pmap.c:383-388 | two exact memories with the same references have the same counts and, lost pages apart, the same free pages |
| Lifetime.LifeRoundTrip | scheduler/kern/env.c:162-196 | set up, any such mapping calls, free: every other environment has its mappings, every count is what it was, and exactly the pages not lost are free again |
| MemoryExamples.LosesItsPage | scheduler/kern/syscall.c:49-61 | with two free pages the first sys_page_alloc of the first environment fails and its page is neither free nor referred to |
| MemoryExamples.MapsItsPageTable | scheduler/kern/syscall.c:273-303 | right after boot one sys_page_alloc and one sys_page_map with perm 0x1005 map the environment's own page table, and the counts are wrong |
| Pmap.Memory.PageInit | scheduler/kern/pmap.c:291-332 | page_init builds the free list of exactly the pages that boot does not keep, in place |
| Pmap.Memory.PageAlloc | scheduler/kern/pmap.c:346-360 | takes the head of the list, zeroes it on request, NULL when empty |
| Pmap.Memory.PageFree | scheduler/kern/pmap.c:366-377 | stops exactly when the page is in use or has a link; otherwise puts the page in front, which makes the list one longer, or, for the last page of the list, no list |
| Pmap.Memory.PageDecref | scheduler/kern/pmap.c:383-388 | drops one reference and frees at zero, as the model function does |
| Pmap.Memory.PgdirWalk | scheduler/kern/pmap.c:412-429 | finds or creates the page table, as the model function does |
| Pmap.Memory.PageLookup | scheduler/kern/pmap.c:518-532 | reads the two levels and returns what the flat map holds |
| Pmap.Memory.PageRemove | scheduler/kern/pmap.c:549-568 | in place, exactly the model's page_remove |
| Pmap.Memory.PageInsert | scheduler/kern/pmap.c:489-505 | in place, exactly the model's page_insert, for every perm |
| Pmap.Memory.EnvSetupVm | scheduler/kern/env.c:162-196 | in place, exactly the model's env_setup_vm |
| Pmap.Memory.EnvPageAlloc | scheduler/kern/syscall.c:49-61 | in place, exactly the model's env_page_alloc, the lost page included |
| Pmap.Memory.EnvPageMap | scheduler/kern/syscall.c:64-76 | in place, exactly the model's env_page_map, for every perm; the invariant holds afterwards if and only if the call fails or leaves the page number as it is |
| Pmap.Memory.EnvFree | scheduler/kern/env.c:421-468 | both loops of env_free in place, exactly the model's env_free |
| Pmap.NothingMapped | scheduler/kern/pmap.c:316-331 | memory in which no environment exists, no count is taken and the list holds what boot does not keep satisfies the invariant |
| UserMem.UserMemCheck | scheduler/kern/pmap.c:643-664 | accepts exactly when every page of the range grants the access below UTOP, in 32-bit arithmetic; otherwise names the first bad address |
| UserMem.CheckCoversRange | scheduler/kern/pmap.c:643-664 | for every range of at least one byte the test agrees with the use of every byte if and only if the rounded end does not wrap, or the wrapped end lies above UTOP, or some page up to it refuses the access |
| UserMem.WrapAcceptsAll | scheduler/kern/pmap.c:643-664 | a range whose end wraps to or below its own first page is accepted whatever is mapped |
| UserMem.WholeSpaceAccepted | scheduler/kern/pmap.c:643-664 | va 0x1000 with len 0xffffffff is accepted in every memory |
| CowFork.WritableCountIsOne | scheduler/lib/fork.c:37-47 | a page mapped with PTE_W has pp_ref 1 if and only if no other entry of any environment maps it |
| CowFork.WritableAlone | scheduler/lib/fork.c:37-47 | between operations the pp_ref of a page mapped with PTE_W is 1 |
| CowFork.AllocStep | scheduler/lib/fork.c:38-39 | a page allocated for oneself is seen by nobody else and no other view changes |
| CowFork.MapStep | scheduler/lib/fork.c:43-44 | mapping one's own page elsewhere changes that one view |
| CowFork.CopyStep | scheduler/lib/fork.c:41-42 | copying onto a private page changes that one view, to the contents of the source |
| CowFork.PageFaultCorrect | scheduler/lib/fork.c:14-48 | pgfault makes the page private and writable; no environment reads anything different |
| CowRefinement.DupPageCorrect | scheduler/lib/fork.c:61-96 | duppage lets the child read what the parent reads and changes no other view, the parent's included |
| CowRefinement.ForkLoopCorrect | scheduler/lib/fork.c:224-237 | after n pages the child has exactly the parent's pages below n, the exception stack apart |
| CowRefinement.ForkCorrect | scheduler/lib/fork.c:206-251 | fork gives the child the parent's view of every page but the exception stack and leaves every other view as it was |
| CowRefinement.StoreCorrect | scheduler/lib/fork.c:14-48 | a store to a page mapped writable changes one word of one view |
| CowRefinement.StepCorrect | scheduler/lib/fork.c:14-96 | every step of the copy-on-write system changes the views as the same step of the eager system does |
| CowRefinement.CowRefinesEager | scheduler/lib/fork.c:206-251 | over every run of creations, whole forks, writes with their faults, allocations, unmappings and exits, each environment reads what it would had every fork copied all pages at once |
| CowRefinement.ReadsFromBoot | scheduler/lib/fork.c:206-251 | the same for every run from boot |
| CowInterleaved.NextCorrect | scheduler/lib/fork.c:14-96 | one page of a fork, one half of a page fault or one step of any environment keeps every view equal to the eager system's, with any number of forks and faults under way |
| CowInterleaved.InterleavedRefinesEager | scheduler/lib/fork.c:206-251 | over every interleaving of the pages of forks, the halves of page faults and the steps of all environments, each environment reads what eager copying page by page gives it |
| CowInterleaved.ReadsAmongOthers | scheduler/lib/fork.c:206-251 | the same for every interleaving from boot |
| CowInterleaved.ForkAmongOthers | scheduler/lib/fork.c:206-251 | a fork whose parent only runs its loop gives the child every page as the parent had it when the fork began, whatever all other environments do between the rounds of its loop |
| ForkCode.DuplicatePage | scheduler/lib/fork.c:61-96 | duppage by system calls on the kernel's tables in place is the model's duppage |
| ForkCode.ForkPages | scheduler/lib/fork.c:224-237 | the loop over page numbers is the model's loop |
| ForkCode.Fork | scheduler/lib/fork.c:206-251 | fork on the tables in place is the model's fork; on success the copy-on-write invariant holds |
| ForkCode.HandleFault | scheduler/lib/fork.c:14-48 | pgfault on the tables in place is the model's pgfault |
| MlfqModel.PromoteGathers | scheduler/kern/sched.c:149-156 | promotion moves all entries to queue A in the order A, B, C, D and resets the count |
| MlfqModel.ChooseDispatches | scheduler/kern/sched.c:208-240 | prioridad_MLFQ runs the first RUNNABLE entry of the first queue that has one and re-queues it one level lower, D staying D |
| MlfqModel.StrictPriority | scheduler/kern/sched.c:242-261 | the same of sched_yield after any promotion due; with no RUNNABLE entry it re-runs curenv or halts and moves nothing |
| MlfqModel.WorkConserving | scheduler/kern/sched.c:208-240 | when every environment in use has an entry, sched_yield dispatches if and only if some environment is RUNNABLE |
| MlfqModel.PromoteKeepsEntries | scheduler/kern/sched.c:140-156 | promotion loses no entry |
| MlfqProofs.RemoveAtIds | scheduler/kern/sched.c:99-113 | removal by swapping with the head takes out exactly the chosen entry |
| MlfqProofs.YieldConserves | scheduler/kern/sched.c:208-261 | every sched_yield only permutes the multiset of ids over the four queues |
| MlfqProofs.YieldPlaced | scheduler/kern/sched.c:208-261 | dispatch and promotion keep each environment's single entry in the queue its cola_actual names |
| MlfqProofs.AllocPlaced | scheduler/kern/env.c:265-275 | env_alloc adds exactly the new id, once, in the queue its cola_actual names |
| MlfqProofs.EliminatePlaced | scheduler/kern/sched.c:115-127 | sched_eliminar_env takes out exactly the one entry of the environment |
| MlfqProofs.SetPriorityPlaced | scheduler/kern/syscall.c:451-480 | a priority is only ever lowered, and the one entry moves to the queue the new cola_actual names |
| MlfqRuns.RunConserves | scheduler/kern/sched.c:89-261 | after every run of sched_yield, env_alloc, priority calls and status changes from the empty scheduler in which no slot is recycled, the queues hold exactly the ids created, each once and in the queue its cola_actual names, and at most NENV in all |
| MlfqRuns.AtMost | scheduler/kern/sched.h:29-33 | ids of different slots are no more than the slots |
| MlfqRuns.RoomInEveryRun | scheduler/kern/sched.c:89-97 | at every call of such a run each ring that is written has room, so that no write replaces an entry |
| MlfqRuns.RecycledGrows | scheduler/kern/env.c:265-275 | children that come and go in one slot each leave an entry behind their parent's |
| MlfqRuns.ParentOverwritten | scheduler/kern/sched.c:89-97 | with NENV - 1 of them the next write replaces the entry of the running parent, which is then in the ring no more |
| MlfqFairness.YieldAdvances | scheduler/kern/sched.c:140-156 | a call that passes a waiting environment over brings promotion nearer or moves it up in queue A |
| MlfqFairness.MeasureFalls | scheduler/kern/sched.c:99-113 | over n calls the measure falls by at least n, whatever happens to other environments meanwhile |
| MlfqFairness.NoStarvation | scheduler/kern/sched.c:208-261 | fewer than 50 + NENV calls in a row can pass over an environment that stays RUNNABLE |
| Mlfq.WindowPush | scheduler/kern/sched.c:89-97 | a write at ultimo appends if and only if the ring holds fewer than NENV entries or its head is the id written; with NENV entries it replaces the head |
| Mlfq.Queue.Remove | scheduler/kern/sched.c:99-113 | the swap in the ring is removal from the contents, for every position the callers pass |
| Mlfq.Queue.FindRunnable | scheduler/kern/sched.c:224-229 | the loop finds the first RUNNABLE entry |
| Mlfq.Queue.HasRunnable | scheduler/kern/sched.c:180-192 | true exactly when some entry is RUNNABLE |
| Mlfq.Scheduler.AddEnv | scheduler/kern/sched.c:89-97 | sets cola_actual and appends the id; in a full ring it replaces the head and leaves the id in the ring twice |
| Mlfq.Scheduler.PromoteQueues | scheduler/kern/sched.c:129-156 | the loops and the reset are the model's promotion, while the queues hold at most NENV entries together |
| Mlfq.Scheduler.BestPriority | scheduler/kern/sched.c:194-206 | the first queue with a RUNNABLE entry |
| Mlfq.Scheduler.RunByPriority | scheduler/kern/sched.c:208-240 | prioridad_MLFQ on the rings is the model's choice |
| Mlfq.Scheduler.SchedYield | scheduler/kern/sched.c:242-261 | sched_yield on the rings is the model's sched_yield |
| Mlfq.Scheduler.EliminateEnv | scheduler/kern/sched.c:115-127 | the search and removal on the ring are the model's |
| Mlfq.Scheduler.AssignPriority | scheduler/kern/syscall.c:468-479 | every branch of sys_env_asignar_prioridad after its permission test, on the rings |
| Mlfq.Scheduler.AnyLeft | scheduler/kern/sched.c:269-276 | sched_halt's loop finds whether any environment is RUNNABLE, RUNNING or DYING |
| Smp.AcquireKeeps | scheduler/kern/spinlock.c:70-81 | winning the exchange keeps the invariant |
| Smp.ReleaseKeeps | scheduler/kern/spinlock.c:84-124 | the last instruction of spin_unlock keeps the invariant |
| Smp.AdvanceKeeps | scheduler/kern/trap.c:256-285 | every instruction of trap, spin_lock and spin_unlock keeps the invariant |
| Smp.ReapKeeps | scheduler/kern/trap.c:272-277 | freeing the zombie found on the way in keeps the invariant |
| Smp.DestroyKeeps | scheduler/kern/env.c:475-494 | env_destroy marks an environment running elsewhere and frees any other, keeping the invariant |
| Smp.RunKeeps | scheduler/kern/env.c:511-529 | env_run leaves the old environment RUNNABLE and the new one current here and nowhere else |
| Smp.GoOnKeeps | scheduler/kern/sched.c:266-307 | re-running curenv, halting and stopping for good keep the invariant |
| Smp.NextKeeps | scheduler/kern/trap.c:244-301 | every action of every processor keeps the invariant |
| Smp.SafeInEveryRun | scheduler/kern/spinlock.c:60-124 | in every interleaving from boot at most one processor is in the kernel, no lock panic is reached, no environment is current on two processors, and with the lock free an environment is RUNNING or DYING exactly when it is some processor's curenv |
| SmpAssumptions.DestroySafeIff | scheduler/kern/env.c:475-494 | every run after an env_destroy keeps the promise of SafeInEveryRun if and only if the environment was not DYING; if it was, the promise is broken at once |
| SmpAssumptions.FreedUnderProcessor | scheduler/kern/env.c:475-494 | a run from boot that leaves an environment FREE while a processor runs it in user mode |
| SmpAssumptions.SetStatusSafeIff | scheduler/kern/syscall.c:169-189 | set_status breaks the promise at once if and only if its target is live on another processor; with an environment running elsewhere that may send, every run after it keeps the promise if and only if moreover the target is no receiver made RUNNABLE |
| SmpAssumptions.StoppedElsewhere | scheduler/kern/syscall.c:169-189 | a run from boot in which set_status puts an environment on two processors |
| SmpAssumptions.ReceiveSafeIff | scheduler/kern/syscall.c:420-433 | with an environment running elsewhere that may send, every run after sys_ipc_recv keeps the promise if and only if its address is valid or its caller is not running any more |
| SmpAssumptions.RefusedReceive | scheduler/kern/syscall.c:420-433 | a run from boot in which a refused call puts its caller on two processors |
| EnvIds.NextIdCorrect | scheduler/kern/env.c:220-224 | the next id is positive, names its slot and belongs to the next generation, wrapping to the first in 32 bits |
| EnvIds.IdComesBackIff | scheduler/kern/env.c:220-224 | a slot has the same id again after k allocations if and only if 2^19 - 1 divides k |
| EnvIds.AllocCorrect | scheduler/kern/env.c:206-263 | env_alloc takes the first free slot and fails exactly when none is FREE; the free list stays exactly the FREE slots |
| EnvIds.FreeCorrect | scheduler/kern/env.c:464-467 | env_free puts the slot in front of the list and keeps every id |
| EnvIds.InitCorrect | scheduler/kern/env.c:115-125 | env_init frees every slot and lists them in order from slot 0 |
| EnvIds.LiveIds | scheduler/inc/env.h:12-30 | ids in use are positive, lead to their slots and are pairwise distinct |
| EnvIds.CheckPerm | scheduler/kern/env.c:95-103 | with permission checking an environment finds exactly itself and its children |
| EnvIds.StaleIdIff | scheduler/kern/env.c:84-93 | over every run an id once given out is accepted again if and only if its slot is in use and was reallocated a multiple of 2^19 - 1 times since |
| EnvIds.EnvTable.constructor | scheduler/kern/env.c:115-125 | the loop of env_init builds that table |
| EnvIds.EnvTable.EnvAlloc | scheduler/kern/env.c:206-263 | env_alloc in place, with both of its errors |
| EnvIds.EnvTable.EnvFree | scheduler/kern/env.c:464-467 | the end of env_free in place |
| EnvIds.EnvTable.Envid2Env | scheduler/kern/env.c:73-107 | lookup by id, 0 standing for the caller |
| Ipc.SendSucceedsIff | scheduler/kern/syscall.c:363-407 | a send succeeds if and only if its target exists and is blocked in ipc_recv, page errors apart; it fails without effect |
| Ipc.DeliverKeeps | scheduler/kern/syscall.c:400-406 | a delivery appends one message for the receiver and completes one ipc_send of the sender |
| Ipc.StepKeeps | scheduler/lib/ipc.c:22-60 | every step of every environment keeps the agreement between kernel fields, library and history |
| Ipc.Lossless | scheduler/lib/ipc.c:22-60 | in every run what ipc_recv returns is, in order, what was sent, with at most one message waiting; and what a sender's completed ipc_send calls sent to a receiver is, in order, what was delivered from it |
| IpcAssumptions.ReceiveSafeIff | scheduler/kern/syscall.c:420-433 | every run after sys_ipc_recv keeps the promise of Lossless if and only if its address is valid |
| IpcAssumptions.SentAndNotReturned | scheduler/kern/syscall.c:420-433 | a run from no environments in which a refused receiver is sent a message and ipc_recv has not returned it nor waits for it |
| IpcAssumptions.LostForGood | scheduler/kern/syscall.c:420-433 | whatever follows, ipc_recv returns there only later messages |
| IpcAssumptions.SetStatusSafeIff | scheduler/kern/syscall.c:169-189 | every run after set_status keeps that promise if and only if it does not make a blocked receiver RUNNABLE |
| Ipc.EnvFields.SysIpcTrySend | scheduler/kern/syscall.c:363-407 | the system call on the fields in place, branch by branch |
| Ipc.EnvFields.SysIpcRecv | scheduler/kern/syscall.c:420-433 | the system call on the fields in place, the flag set before the test |
| DirectoryText.LinesOfJoin | file_system/fs.c:30-47 | listing a text written from one-line names gives those names back, in order |
| DirectoryText.JoinOfLines | file_system/fs.c:30-47 | every terminated text is the text of its own entries |
| DirectoryText.LinesSnoc | file_system/fs.c:133-155 | appending one entry adds one name at the end of the listing |
| FsProofs.MakeCorrect | file_system/fisopfs.c:158-200 | a new path in its place: success, a sound table, exactly that path added, and one name more at the end of the parent's listing |
| FsProofs.RemoveCorrect | file_system/fs.c:160-202 | taking out a path without children: a sound table, exactly that path gone, and the parent's listing without its name |
| FsProofs.RebuildIs | file_system/fs.c:185-195 | the rebuilding loop joins the other entries and never grows the buffer of a sound directory |
| FsRuns.MakeKeepsIff | file_system/fs.c:66-155 | mkdir and create keep the table sound if and only if they refuse for want of room, or the path is new, its parent a directory and its name one line |
| FsRuns.MakeResult | file_system/fs.c:206-228 | with a slot free, -ENOTDIR exactly when the parent is a file and success otherwise, a missing parent included |
| FsRuns.UnlinkCorrect | file_system/fisopfs.c:135-156 | unlink always keeps the table sound, removes exactly files, and reports the rest without effect |
| FsRuns.RmdirCorrect | file_system/fisopfs.c:219-246 | rmdir below the root removes exactly the directories without children and reports the rest without effect |
| FsRuns.RmdirKeepsIff | file_system/fisopfs.c:219-246 | rmdir keeps the table sound if and only if it does not remove an empty root |
| FsRuns.ReaddirCorrect | file_system/fisopfs.c:57-96 | readdir lists ".", ".." and, once each, exactly the base names of the live children |
| FsRuns.RunRefinesTree | file_system/fisopfs.c:135-246 | every run of mkdir, create, unlink and rmdir reports what a plain map from paths to kinds reports and leaves a sound table that holds exactly that map |
| FsRuns.FreshHolds | file_system/fisopfs.c:338-348 | a new file system is sound and holds the root alone |
| FsExamples.MadeWithoutParent | file_system/fs.c:206-228 | mkdir of /a/b on a new file system succeeds, although readdir of /a reports that there is none |
| FsExamples.RootRemoved | file_system/fisopfs.c:219-246 | rmdir of the root of a new file system succeeds and leaves no path |
| FileSystem.GetNextEntry | file_system/fs.c:30-47 | the loop yields the entry at the offset and the offset of the next |
| FileSystem.AddDentryToContent | file_system/fs.c:132-155 | appends the entry, growing the recorded size when it does not fit |
| FileSystem.CopyOtherEntries | file_system/fs.c:178-195 | the loop of remove_inode builds the text of the other entries |
| FileSystem.FillEntries | file_system/fisopfs.c:85-93 | the loop of readdir hands over every entry of the text |
| FileSystem.Superblock.constructor | file_system/fisopfs.c:338-348 | fisopfs_init without an image leaves a sound table with the root alone |
| FileSystem.Superblock.SearchInode | file_system/fs.c:11-25 | the loop finds the first live inode with the path, or none |
| FileSystem.Superblock.SearchFreeInode | file_system/fs.c:51-62 | the loop finds the first free slot, or none |
| FileSystem.Superblock.CreateInode | file_system/fs.c:66-100 | create_inode in place, with its errors |
| FileSystem.Superblock.GetParent | file_system/fs.c:104-127 | the inode of the path up to its last slash |
| FileSystem.Superblock.RemoveInode | file_system/fs.c:159-202 | remove_inode in place, its early return included |
| FileSystem.Superblock.AddDentryToParentDir | file_system/fs.c:206-228 | in place, with its results |
| FileSystem.Superblock.Mkdir | file_system/fisopfs.c:158-178 | mkdir in place is the model's mkdir |
| FileSystem.Superblock.Create | file_system/fisopfs.c:180-200 | create in place is the model's create |
| FileSystem.Superblock.Unlink | file_system/fisopfs.c:135-156 | unlink in place is the model's unlink |
| FileSystem.Superblock.Rmdir | file_system/fisopfs.c:219-246 | rmdir in place is the model's rmdir |
| FileSystem.Superblock.Readdir | file_system/fisopfs.c:57-96 | readdir hands over what the model's readdir lists |
| SaveLoad.ReadBack | file_system/fs.c:245-267 | reading one stored record gives the inode with its first size bytes and stops at the next record |
| SaveLoad.LoadSave | file_system/fs.c:232-316 | loading a saved table gives the live inodes below inode_amount, packed to the front in order, each with its fields and first size bytes |
| SaveLoad.PrefixComesBack | file_system/fs.c:232-316 | with the live inodes in a prefix every one comes back where it was |
| SaveLoad.RemountSoundIff | file_system/fs.c:292-309 | saving and loading a sound table leaves a sound table if and only if no live inode lies at or past inode_amount; it then holds the same paths |
| FsExamples.LostAtRemount | file_system/fs.c:292-309 | after mkdir /a, mkdir /b, rmdir /a the next unmount and mount loses /b |
| SaveLoad.Serialize | file_system/fs.c:281-305 | the loop writes the image of the table |
| SaveLoad.Deserialize | file_system/fs.c:232-267 | the loop reads any image as the model's parser does |
| Stab.StabBinsearch | scheduler/kern/kdebug.c:59-106 | both loops with their in-place bounds compute the model's search and end on every table |
| Stab.EmptyIff | scheduler/kern/kdebug.c:96-105 | on any table the result is empty if and only if the range holds no stab of the type |
| Stab.SafeWhen | scheduler/kern/kdebug.c:87-93 | a search is safe whenever the range does not hold stabs at both addr and addr + 1 |
| Stab.FindsLastAtOrBelow | scheduler/kern/kdebug.c:39-42 | then it ends at the last stab at or below the address, and just before the next stab of the type or at the old right end |
| Stab.CorrectEverywhereIff | scheduler/kern/kdebug.c:87-93 | told from the addresses alone: every range of a sorted table is searched correctly if and only if the table does not hold stabs at both addr and addr + 1 |
| Stab.BinSearchCorrect | scheduler/kern/kdebug.c:59-106 | in a sorted table a safe search ends at the last stab at or below the address and just before the next stab of the type, or the old right end |
| Stab.CorrectIffSafe | scheduler/kern/kdebug.c:87-93 | of one range, with no stab at the last address: the search brackets the address if and only if, at its first exact match, no stab at addr + 1 is left in the range; that follows the midpoints, so only a search tells |
| Stab.NextAddressMisleads | scheduler/kern/kdebug.c:87-93 | stabs at 10 and 11: looking for 10 ends at the second |
| Stab.NotEmptyThoughAbove | scheduler/kern/kdebug.c:39-42 | one stab above the address: the result is not empty |
| ShellParse.TokensAreWords | shell/parsing.c:155-172 | parse_exec depends on a text only through its words |
| ShellParse.ParseLineIs | shell/parsing.c:219-234 | any line whose segments are foreground commands parses to the right-nested pipeline of what they mean, whatever its spacing |
| ShellPipeline.FeedItem | shell/parsing.c:29-98 | each well formed argument, setting and redirection sets exactly its own field |
| ShellPipeline.CollectItems | shell/parsing.c:145-178 | the loop collects arguments and settings in order and the last file for each stream, 2>&1 naming what stdout had until then |
| ShellPipeline.RoundTrip | shell/parsing.c:219-234 | parsing the text of any non-empty list of well formed commands, in any spacing, gives the right-nested pipeline of what they mean |
| ShellPipeline.RunsAsWritten | shell/exec.c:144-253 | running that text starts command i with its own arguments, between private pipes, with its own redirections on top |
| ShellBuffer.BlockContains | shell/utils.c:25-33 | the first index of the character, or -1 |
| ShellBuffer.SplitLine | shell/utils.c:6-20 | cuts the buffer at the first splitter and returns the rest past its leading spaces |
| ShellBuffer.GetToken | shell/parsing.c:11-27 | the text up to the next space or the end |
| ShellBuffer.ExecRecord.ParseRedirFlow | shell/parsing.c:30-73 | takes exactly the tokens with '>' or '<', setting the field the model sets |
| ShellBuffer.ExecRecord.ParseEnvironVar | shell/parsing.c:77-98 | takes exactly the settings |
| ShellBuffer.ParseExec | shell/parsing.c:145-178 | parse_exec on the buffer is the model's |
| ShellBuffer.ParseBack | shell/parsing.c:181-195 | parse_back on the buffer is the model's, touching only its own text |
| ShellBuffer.ParseCmd | shell/parsing.c:199-215 | parse_cmd on the buffer is the model's, touching only its own text |
| ShellBuffer.ParseLine | shell/parsing.c:219-234 | parse_line on the buffer, cut in place, is the model's; the recursion ends |
| ShellExec.Lowest | shell/exec.c:202-203 | the lowest descriptor that is not open |
| ShellExec.PipeTables | shell/exec.c:214-246 | after the closes the left child differs from the shell in stdout only, the right child in stdin only, the waiting parent in nothing |
| ShellExec.Wiring | shell/exec.c:198-251 | for pipelines of any length, stage k writes pipe k, stage k + 1 reads it, the end stages keep the shell's input and output |
| ShellExec.PrivatePipes | shell/exec.c:198-251 | among all processes the write end of pipe k is open in stage k alone and its read end only in stage k + 1 and the process waiting for it |
| ShellExec.ExactlyThree | shell/exec.c:198-251 | started from descriptors 0, 1 and 2, every stage has exactly those |
| ShellExec.RedirectIs | shell/exec.c:176-191 | a redirection changes only its own stream, and stderr; it fails exactly when a file cannot be opened |
| ShellExec.StderrKeptIff | shell/exec.c:187-191 | stderr stays where it was if and only if stdout is redirected to a file and stderr is not |
| ShellExec.ErrorsIntoPipe | shell/exec.c:187-191 | with sort reading a file and piped into wc, the messages of sort go down the pipe |
| ShellExec.Process.Redirect | shell/exec.c:101-114 | open, dup2 and close on the lowest free descriptor |
| ShellExec.Session.RedirectAll | shell/exec.c:182-191 | the REDIR case in place |
| ShellExec.Session.ForkAround | shell/exec.c:198-246 | the PIPE case up to its two commands, in place |
| ShellExec.Session.ExecCmd | shell/exec.c:144-253 | exec_cmd in place starts what the model starts |
| Number.PrintNum | scheduler/lib/printfmt.c:36-55 | the recursion emits the digits, filled up on the left to the width |
| Number.PrintedLength | scheduler/lib/printfmt.c:36-55 | the output is as long as the larger of width and digit count |
| Number.StrtolLoop | scheduler/lib/string.c:246-291 | the loops compute the model's strtol |
| Number.DigitsBack | scheduler/lib/string.c:270-286 | the digits of a number read as that number, to their end |
| Number.RoundTrip | scheduler/lib/printfmt.c:36-55 | strtol of the output gives the number back and consumes the whole text, in every base from 2 to 16, any width, padded with spaces or zeros |
| Number.SignedRoundTrip | scheduler/lib/string.c:256-260 | a minus sign before zero-padded digits negates the value |
| Number.PrefixedRoundTrip | scheduler/lib/string.c:262-268 | "0x" before hexadecimal digits is skipped, in base 16 and when the base is to be found out |

## Left out

- The TLB, cr3, descriptor tables, interrupt controllers, the console, ELF loading and register restore: hardware. Interrupts are taken to be off in the kernel. Mappings above UTOP are fixed, and the pages behind them reserved.
- Pmap.Memory.PageInsert: asks for a count below 2^16 - 1, because past it the invariant and with it the typed free list of the class fail; InsertKeepsIff covers every count.
- Pmap.Memory.EnvPageMap: asks the same; MapAtCorrect covers every count.
- sys_page_alloc, sys_page_map, sys_page_unmap: their address tests are the page-number ranges of the model and their permission test is EnvIds.CheckPerm. A perm that is negative as an int stands for its 32-bit pattern.
- Copy-on-write runs: no call fails; a user program maps pages only through fork, pgfault, sys_page_alloc and sys_page_unmap; nobody writes a read-only or unmapped page, because the test at scheduler/lib/fork.c:28 never fires and pgfault would copy such a page too; PFTEMP and the exception stack belong to the fault handler; there is room in every reference count when a page is duplicated. Device pages (PTE_PCD, PTE_PWT), set_pgfault_handler and the trap frame are not modelled.
- CowRefinement.CowRefinesEager: whole forks and page faults are single steps there; InterleavedRefinesEager takes them apart.
- CowRefinement.ReadsFromBoot: the same; ReadsAmongOthers takes them apart.
- CowInterleaved.InterleavedRefinesEager: the two sys_page_map calls of duppage are one step, and so are pgfault's copy and its last two system calls; between them a page is mapped writable and shared by the two entries in hand alone.
- fork_v0 and sfork: the eager system stands for the first; the second only panics.
- Overflow of primero and ultimo: they are unbounded here. The round-robin scheduler and the printed statistics would add only easy members.
- Mlfq.Scheduler.PromoteQueues: asks for at most NENV entries in all, so that queue A has room; RunConserves shows it of every run without recycled slots. After a full ring is written, ultimo is more than NENV ahead of primero and the rings are no queues any more: AddEnv says what that write does, and nothing is said of later calls.
- Mlfq.Scheduler.RunByPriority: asks that the ring that gets the chosen entry has room (ChooseFits), for the same reason.
- Mlfq.Scheduler.SchedYield: asks that the rings it writes have room (YieldFits), which RoomInEveryRun shows.
- Mlfq.Scheduler.AssignPriority: asks that the ring it writes has room (PriorityFits), which RoomInEveryRun shows.
- MlfqRuns.RunConserves: slots are not recycled, since env_free leaves the old id behind; ParentOverwritten shows what recycling leads to.
- MlfqFairness.NoStarvation: sched_eliminar_env steps between the calls are excluded, because removal by swapping moves the head of the queue back.
- Smp: a transition system on values, because the steps of the processors interleave; kernel work between taking and giving back the lock is one step per system call, since nothing else can run in the kernel meanwhile; memory ordering is that of atomic exchanges. The page-table part of env_free and the queues are the other modules' subject, so Schedule may pick any RUNNABLE environment.
- Ipc: the rounds of ipc_send's loop are steps of the system, because other environments run between them; page transfer is one flag that says whether the page is refused; ids are places in the order of creation, which EnvIds.StaleIdIff justifies short of 2^19 - 1 reallocations of one slot.
- EnvIds.EnvTable.Envid2Env: the caller is a running environment; with no curenv the code would follow a null pointer.
- File contents: read, write, truncate, getattr, utimens and timestamps; a file's bytes matter only to the image on disk. Allocation failures and I/O errors are not modelled.
- FsModel: a buffer is the bytes up to its terminator and its recorded size; what lies past the terminator reads as zero when saved. Paths are those FUSE passes: absolute, without empty names.
- Ipc.EnvFields.SysIpcTrySend: the page transfer is one flag for a refused page; MapAtCorrect is what page_insert does there.
- SaveLoad.Deserialize: reads whole inode records and whole content bytes; an image that breaks inside a record header ends there.
- Stab.CorrectIffSafe: asks that no stab of the type lies at address 2^32 - 1, where addr + 1 wraps to 0; BinSearchCorrect covers that address too.
- debuginfo_eip, which calls the search three times.
- Capacities of the shell's arrays (MAXARGS, ARGSIZE, BUFLEN beyond the end of the line): sequences are unbounded here. The character before the buffer, which parse_cmd reads when a line starts with '&', is taken not to be '>'.
- ShellBuffer.ParseCmd: asks that no '>' stands before the text it is given; parse_line, its only caller, passes the start of the line or what follows a '|' and its spaces.
- The value of a variable is a parameter (a map, with "?" for the last status); setenv, execvp, process groups, signals, built-ins and waiting are not modelled. ShellPipeline.RoundTrip covers foreground commands whose arguments do not start with '$'.
- ShellExec.Run: pipelines nest to the right, as the parser makes them (RunsAsWritten); a pipeline on the left of another would run its right side twice in the code.
- ShellExec.Session.ExecCmd: the same pipelines; with no left side the code would follow a null pointer.
- ShellExec.ExactlyThree: says it of stages that start; a stage whose file cannot be opened exits before its command.
- Number: values are unbounded integers; strtol detects no overflow. vprintfmt's formats are not modelled.
