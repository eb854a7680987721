# rCore teaching kernel: deadlock avoidance, stride scheduling, mmap

A Dafny model of four pieces of the rCore teaching kernel:

- **Deadlock detection for process-level locks and semaphores** (`os/src/syscall/sync.rs`).
  - Every thread keeps two lists per resource kind: the ids it has requested and the ids it holds.
  - `sys_mutex_lock` and `sys_semaphore_down` record the request and build a `work`/`need`/`allocation` snapshot from every thread's lists.
  - When detection is enabled, they run the banker's safety algorithm (`check`) on the snapshot.
  - They then either grant the request or withdraw it and return `-0xdead`.
  - The module also covers unlock/up and the three `*_create` slot allocators.
- **Stride scheduling** (`os/src/task/manager.rs`). `fetch` takes the first Ready task of least stride out of the ready queue and advances that task's stride by `BIG_STRIDE / priority`.
- **Anonymous memory mapping** (`os/src/syscall/process.rs` with `os/src/task/mod.rs`). `sys_mmap` checks the permission bits and the alignment, `sys_munmap` only the alignment; each then validates the whole page range, and only then maps or unmaps it. The address space is a map from virtual page number to page-table entry.
- **The seconds/microseconds split** of `sys_get_time`.

Modules:

- `Banker`: `check` and its specification. It is proved correct: for allocations that are counts, as both snapshots are (`Resources.SnapshotsWellFormed`), `check` answers true exactly when a safe ordering of the threads exists.
- `Resources`: the per-thread ledger, the list operations and the two snapshot builders.
- `Sync`: the process, as a class with its handle tables, its threads' ledgers and the syscalls that update them.
- `Manager`: task control blocks as objects and the ready queue.
- `TaskMemory`: a task's page map and syscall counters.
- `ProcessSyscalls`: mmap, munmap and the time split.
- `Wrappers`: `Option`.

The calling thread or task is passed explicitly where the kernel looks it up through `current_task()` / `current_process()`.

Three behaviours of the code worth noting:

- `fetch` on a queue with no Ready task bumps the head entry's stride and returns it (os/src/task/manager.rs:30, 39-44).
- `sys_munmap` validates its whole range before changing anything (os/src/syscall/process.rs:169-176).
- `sys_mutex_lock` moves a granted id from the requested list to the held list before it waits in `mutex.lock()` (os/src/syscall/sync.rs:130-143). A thread blocked on a mutex therefore has no pending request in any later snapshot. The detector refuses a re-lock when no other thread is recorded on that mutex (`Sync.Relock`). With a waiter present, the waiter is already recorded as holding the mutex, and the re-lock is granted (`Sync.RelockWithWaiter`). When two threads each hold one mutex and then lock the other's, both locks are granted and both threads wait for ever (`Sync.CrossedLocks`; see Findings). `sys_semaphore_down` waits in `sem.down()` first (os/src/syscall/sync.rs:324), so a blocked downer's request stays visible to the other threads' snapshots.

## Model

| member | source | states |
|---|---|---|
| Banker.FirstRunnable | os/src/syscall/sync.rs:454-459 | the index found is the lowest unfinished task whose need row fits in work; every unfinished task before it does not fit; n when none fits |
| Banker.FinishOneDecreases | os/src/syscall/sync.rs:452-473 | finishing one more task lowers the unfinished count by one, so the outer loop runs at most n+1 rounds |
| Banker.AddAllocation | os/src/syscall/sync.rs:460-462 | each entry of work grows by the same entry of the finishing task's allocation row |
| Banker.Check | os/src/syscall/sync.rs:443-480 | terminates; returns true exactly when every task ends finished, starting from a fresh finish vector; leaves work as the specification's final work |
| Banker.RunKeepsProgress | os/src/syscall/sync.rs:452-473 | every round keeps the order distinct and the finished set equal to it, with work = initial work plus the finished tasks' allocations; the loop stops only when no unfinished task fits |
| Banker.FinalWork | os/src/syscall/sync.rs:454-466 | the final work is the initial work plus the column sums of the finished tasks' allocation rows; a task is finished iff it is in the safe sequence, which has no repeats |
| Banker.BankerSound | os/src/syscall/sync.rs:475-479 | when check answers true, the order it finished the tasks in is a safe sequence covering every task |
| Banker.BankerComplete | os/src/syscall/sync.rs:452-479 | if some ordering of all tasks is safe and allocations are non-negative, check answers true |
| Banker.BankerCorrect | os/src/syscall/sync.rs:443-480 | for non-negative allocations, check answers true iff a safe ordering of all tasks exists |
| Resources.Position | os/src/syscall/sync.rs:132 | the first index holding the id |
| Resources.RemoveFirst | os/src/syscall/sync.rs:185-188 | as a multiset, the list loses exactly one occurrence of the id when present and is unchanged otherwise; no new ids appear |
| Resources.GrantMovesRequest | os/src/syscall/sync.rs:85-139 | `Request` (the push at line 85) followed by `Grant` (lines 130-139): after request then grant, the requested list is back to its old multiset, the id is appended to the held list, and the other kind's lists are untouched |
| Resources.WithdrawRestores | os/src/syscall/sync.rs:149-158 | `Request` followed by `Withdraw` (lines 150-157): after request then withdrawal, the requested list is back to its old multiset and nothing else changed |
| Resources.ReleaseDropsOne | os/src/syscall/sync.rs:184-188 | `Release`, as unlock/up: drops exactly one held occurrence, is a no-op when the id is not held, and leaves the requested lists alone |
| Resources.UpdatesKeepIdsBelow | os/src/syscall/sync.rs:109-120 | request, grant, withdrawal and release never put an out-of-table id in a ledger, so the snapshot's indexing stays in bounds |
| Resources.SnapshotsWellFormed | os/src/syscall/sync.rs:92-94 | both snapshots are n-by-m with non-negative allocation entries |
| Resources.CountInto | os/src/syscall/sync.rs:110-112 | each need entry grows by the number of occurrences of its id |
| Resources.MarkHeldMutexes | os/src/syscall/sync.rs:115-120 | a held mutex id gets work 0 and allocation 1; every other entry is unchanged |
| Resources.TakeHeldSemaphores | os/src/syscall/sync.rs:305-311 | work drops and allocation grows by the occurrences of each held semaphore id |
| Resources.AddMutexThread | os/src/syscall/sync.rs:97-121 | one thread slot contributes its need row and allocation row and zeroes the work of the mutexes it holds; an empty slot contributes zero rows |
| Resources.BuildMutexSnapshot | os/src/syscall/sync.rs:89-123 | the loop builds work (1 unless some thread holds the mutex), need (request counts) and allocation (1 per held mutex) |
| Resources.AddSemaphoreThread | os/src/syscall/sync.rs:292-312 | one thread slot contributes its request and holding counts and lowers work by its holdings |
| Resources.BuildSemaphoreSnapshot | os/src/syscall/sync.rs:285-314 | the loop builds work (creation count minus all holdings), need and allocation (occurrence counts) |
| Sync.FirstFreeSlot | os/src/syscall/sync.rs:46-51 | the lowest index holding an empty slot, or none when every slot is taken |
| Sync.MutexDeadlockFree | os/src/syscall/sync.rs:89-126 | answers whether the mutex snapshot of the ledgers is safe |
| Sync.SemaphoreDeadlockFree | os/src/syscall/sync.rs:285-322 | answers whether the semaphore snapshot of the ledgers is safe |
| Sync.CrossedSnapshot | os/src/syscall/sync.rs:89-123 | the snapshot of two threads that each hold one mutex and have a pending request for the other's; only the corrected lock leaves such a request pending |
| Sync.CrossedRequestsRefused | os/src/syscall/sync.rs:126 | that snapshot is unsafe, so the corrected lock refuses the second request |
| Sync.RelockSnapshot | os/src/syscall/sync.rs:89-123 | the snapshot of a single thread that holds mutex 0 and asks for it again |
| Sync.RelockRefused | os/src/syscall/sync.rs:126-160 | that snapshot is unsafe, so the re-lock is refused |
| Sync.HeldBothSnapshot | os/src/syscall/sync.rs:89-123 | the snapshot when thread 1 asks for mutex 0 after thread 0 was granted mutex 1: thread 0 is recorded as holding both and asking for nothing |
| Sync.HeldBothGranted | os/src/syscall/sync.rs:126-148 | that snapshot is safe, so the second crossed lock is granted too |
| Sync.WaiterSnapshot | os/src/syscall/sync.rs:89-123 | the snapshot when thread 1 asks for mutex 0, held by thread 0 |
| Sync.WaiterGranted | os/src/syscall/sync.rs:126-148 | that snapshot is safe (the holder can finish first), so the lock is granted |
| Sync.RelockAfterGrantSnapshot | os/src/syscall/sync.rs:89-123 | the snapshot of thread 0's re-lock after the lock as written granted mutex 0 to thread 1: both threads are recorded as holding it |
| Sync.RelockAfterGrantGranted | os/src/syscall/sync.rs:126-148 | that snapshot is safe, so the re-lock is granted |
| Sync.RelockPendingSnapshot | os/src/syscall/sync.rs:89-123 | the same re-lock when thread 1's request is still pending, as the corrected lock leaves it |
| Sync.RelockPendingRefused | os/src/syscall/sync.rs:126-160 | that snapshot is unsafe, so the corrected lock refuses the re-lock |
| Sync.OneWaiterSnapshot | os/src/syscall/sync.rs:89-123 | the snapshot of one thread waiting for a mutex held by an idle thread |
| Sync.OneWaiterGranted | os/src/syscall/sync.rs:126-148 | that request is safe (the holder can finish first), so the lock is granted |
| Sync.Process.MutexCreate | os/src/syscall/sync.rs:27-59 | reuses the lowest empty slot, else appends; only that slot changes and the ids stay in range |
| Sync.Process.SemaphoreCreate | os/src/syscall/sync.rs:193-225 | as mutex create, and records the count at the same index, so both semaphore tables keep the same length |
| Sync.Process.CondvarCreate | os/src/syscall/sync.rs:357-387 | reuses the lowest empty slot, else appends; nothing else changes |
| Sync.Process.EnableDeadlockDetect | os/src/syscall/sync.rs:432-441 | sets the detection flag, returns 0, and changes nothing else |
| Sync.Process.MutexLock | os/src/syscall/sync.rs:61-162 | with detection off or a safe snapshot (request included), returns 0 with the id moved from requested to held; otherwise returns -0xdead with the request withdrawn; the process invariant holds |
| Sync.Process.MutexLockCorrected | os/src/syscall/sync.rs:61-162 | the corrected lock: the same decision as `MutexLock`, but a granted request stays pending (the thread waits in `mutex.lock()`), as `sys_semaphore_down` orders it at lines 322-337 |
| Sync.Process.MutexLockAcquired | os/src/syscall/sync.rs:130-139 | the corrected lock's second half, once the lock is taken: the pending request becomes a holding |
| Sync.Relock | os/src/syscall/sync.rs:61-162 | from a new process, create a mutex and lock it, turn detection on, and lock it again: the first call returns 0 and the second -0xdead |
| Sync.CrossedLocks | os/src/syscall/sync.rs:61-162 | thread 0 holds mutex 0 and thread 1 mutex 1, with detection on; thread 0 locks mutex 1, then thread 1 locks mutex 0: both calls return 0, and both ledgers list both mutexes as held |
| Sync.CrossedLocksCorrected | os/src/syscall/sync.rs:61-162 | the same sequence with the corrected lock: the first call returns 0 and leaves thread 0's request pending; the second returns -0xdead |
| Sync.RelockWithWaiter | os/src/syscall/sync.rs:61-162 | thread 0 holds mutex 0, with detection on; thread 1 locks mutex 0, then thread 0 locks it again: both calls return 0, and both ledgers list mutex 0 as held |
| Sync.RelockWithWaiterCorrected | os/src/syscall/sync.rs:61-162 | the same sequence with the corrected lock: thread 1's call returns 0 and leaves its request pending; thread 0's re-lock returns -0xdead |
| Sync.Process.MutexUnlock | os/src/syscall/sync.rs:164-191 | returns 0 and drops one held occurrence of the id from the caller's ledger |
| Sync.Process.SemaphoreUp | os/src/syscall/sync.rs:227-255 | returns 0 and drops one held occurrence of the id from the caller's ledger |
| Sync.Process.SemaphoreDown | os/src/syscall/sync.rs:257-355 | as mutex lock, judged on the semaphore snapshot whose work starts from the creation counts |
| Manager.StrideScan | os/src/task/manager.rs:29-37 | the index is the first Ready task of least stride (strict comparison keeps the earliest on ties), or 0 when no Ready task is below the initial bound |
| Manager.StrideChoiceUnique | os/src/task/manager.rs:29-37 | at most one index satisfies the choice, so fetch is deterministic |
| Manager.StrideChoiceIsMinimal | os/src/task/manager.rs:33-34 | no Ready task with a smaller stride is passed over |
| Manager.TaskManager.constructor | os/src/task/manager.rs:17-21 | the ready queue starts empty |
| Manager.TaskManager.Add | os/src/task/manager.rs:23-25 | the task is appended at the back and nothing else changes |
| Manager.TaskManager.Fetch | os/src/task/manager.rs:27-45 | empty queue: none, unchanged; otherwise the chosen task is returned and removed, the rest keep their order, its stride grows by BIG_STRIDE / priority, and every other task keeps its stride, status and priority |
| TaskMemory.PermissionOf | os/src/task/mod.rs:152 | keeps exactly the R, W, X and U bits of the low byte of the port |
| TaskMemory.TaskInner.Check | os/src/task/mod.rs:134-146 | true iff the page has an entry and it is valid |
| TaskMemory.TaskInner.MapAll | os/src/task/mod.rs:149-153 | every page of [start, end) gets a valid entry with the truncated permission; no other page changes |
| TaskMemory.TaskInner.UnmapAll | os/src/task/mod.rs:156-164 | every page of [start, end), end excluded, gets the empty entry; no other page changes; nothing happens when start >= end |
| TaskMemory.TaskInner.ChangeSyscallTimes | os/src/task/mod.rs:126-131 | the counter of that syscall grows by one and every other counter is unchanged |
| ProcessSyscalls.Floor | os/src/syscall/process.rs:147 | the page containing the address |
| ProcessSyscalls.Ceil | os/src/syscall/process.rs:148 | the least page boundary at or above the address |
| ProcessSyscalls.PortRejected | os/src/syscall/process.rs:143 | the port is rejected iff it is not in 1..7 |
| ProcessSyscalls.Misaligned | os/src/syscall/process.rs:143 | the start is accepted iff it is a multiple of the page size |
| ProcessSyscalls.SysMmap | os/src/syscall/process.rs:141-160 | -1 and no change on a bad port or misaligned start, or when any page of [floor(start), ceil(start+len)) is already valid; otherwise maps exactly that range and returns 0 |
| ProcessSyscalls.SysMunmap | os/src/syscall/process.rs:163-179 | as written: -1 and no change when misaligned or when any page from floor(start) through ceil(start+len) inclusive is not valid; otherwise empties [floor, ceil) and returns 0 |
| ProcessSyscalls.SysMunmapCorrected | os/src/syscall/process.rs:163-179 | validates exactly the pages it empties, [floor(start), ceil(start+len)) |
| ProcessSyscalls.MmapPermission | os/src/syscall/process.rs:158 | `MmapPort` (`port << 1 \| 1 << 4`) followed by `PermissionOf`: an accepted port's bits 0, 1, 2 become R, W, X, the mapping is user-accessible, and no other bit is set |
| ProcessSyscalls.MmapTwiceConflicts | os/src/syscall/process.rs:151-156 | repeating a successful non-empty mmap returns -1 and changes nothing |
| ProcessSyscalls.MmapMunmapRoundTrip | os/src/syscall/process.rs:141-179 | the corrected munmap of a fresh mapping succeeds, invalidates the range, restores every other page, and the same mmap then succeeds again with the same result |
| ProcessSyscalls.MunmapAsWrittenRejectsExactRange | os/src/syscall/process.rs:169-174 | munmap as written of a fresh mapping fails, leaving it mapped, whenever the page after the range is not valid |
| ProcessSyscalls.MunmapRejectsFreshMapping | os/src/syscall/process.rs:169 | mapping one page at address 0 of an empty space succeeds, and unmapping that same page returns -1 |
| ProcessSyscalls.GetTime | os/src/syscall/process.rs:88-91 | sec * 1000000 + usec is the reading and usec < 1000000 |

## Left out

- `sys_sleep` (os/src/syscall/sync.rs:8-25): it registers a timer and blocks. Timers and blocking are outside the model.
- `sys_condvar_signal` and `sys_condvar_wait` (os/src/syscall/sync.rs:389-428): they only look up handles and call into `Condvar`, whose code is not part of this model.
- The bodies of `Mutex::lock`/`unlock`, `Semaphore::up`/`down` and `Condvar`: they live in `crate::sync`, which is not part of this model, and they are treated as no-ops.
  - So mutual exclusion, semaphore counts and wait queues are not modelled.
  - The handle tables record only the kind of object in each slot and, for a semaphore, the count it was created with.
- Sync.Process.MutexLock: the panic on a mutex id that is out of range or names an empty slot (os/src/syscall/sync.rs:79) is modelled as a precondition.
- Sync.Process.MutexUnlock: the panic on a mutex id that is out of range or names an empty slot (os/src/syscall/sync.rs:178) is modelled as a precondition.
- Sync.Process.SemaphoreUp: the panic on a semaphore id that is out of range or names an empty slot (os/src/syscall/sync.rs:241) is modelled as a precondition.
- Sync.Process.SemaphoreDown: the panic on a semaphore id that is out of range or names an empty slot (os/src/syscall/sync.rs:275) is modelled as a precondition.
- TaskMemory.TaskInner.ChangeSyscallTimes: the panic on a syscall id beyond the counter array (os/src/task/mod.rs:129) is modelled as a precondition.
- TaskMemory.TaskInner.MapAll: the page table's panic on mapping a page that is already valid is modelled as a precondition; `sys_mmap` validates the range first, so it never reaches it.
- TaskMemory.TaskInner.UnmapAll: the page table's panic on unmapping a page that is not valid is modelled as a precondition; `sys_munmap` validates the range first, so it never reaches it.
- Sync.Process.MutexLock: returns as soon as the ledger is updated. The wait inside `mutex.lock()` is not modelled.
- Sync.Process.SemaphoreDown: the source calls `sem.down()` before it moves the request to the held list. While a downer is blocked there, its request stays visible to the other threads' snapshots. The model does not block: it moves the request in the same step, so that intermediate state is not modelled. `MutexLockCorrected` and `MutexLockAcquired` model this order for mutexes.
- Sync.Process.MutexLock and Sync.Process.SemaphoreDown build the snapshot only when detection is enabled. The source always builds it, with no effect when detection is off.
- Fixed-width integers:
  - The `i32` snapshot entries, the `usize` additions `start + len` and `stride += ...`, and the `u32` syscall counters are unbounded integers here, so overflow and wrap-around are not modelled.
  - `VirtAddr::from` truncating an address to 39 bits is not modelled.
- Manager.TaskManager.Fetch: requires every queued priority to be at least 1. This is assumed as an invariant of the task model, because a zero priority would divide by zero at the stride update (os/src/task/manager.rs:42).
- `BIG_STRIDE` and `PAGE_SIZE` come from `config.rs`, which is not part of this model.
  - `PAGE_SIZE` is 4096.
  - `BIG_STRIDE` is a positive constant; no property depends on its value.
- The memory set:
  - `insert_framed_area` also records a map area and allocates physical frames; `unmap_all` clears page-table entries only. Areas and frames are not modelled.
  - A page number absent from the map stands for a missing intermediate page table.
- `sys_get_time`: only the split of the clock reading is modelled. The clock is a parameter, and the byte copy into user memory is left out.
- `sys_task_info`, `sys_sbrk`, process lifecycle, context switching, `spawn` and `os/src/syscall/fs.rs`: not part of the modelled core.
- The global wrappers `add_task`/`fetch_task`, `UPSafeCell` and reference counting:
  - the task manager and the process are ordinary objects here;
  - a task control block shared by reference is a Dafny object, so the stride bump is seen through every reference to it.

## Findings

| source | as written | input that shows it | evidently intended | confidence | as-written member | corrected member |
|---|---|---|---|---|---|---|
| os/src/syscall/process.rs:169 | the munmap validation loop runs while `start_vpn <= end_vpn`, so it also requires page `ceil(start + len)`, which it does not unmap, to be mapped | on an empty address space, `sys_mmap(0, 4096, 3)` maps page 0 and returns 0; `sys_munmap(0, 4096)` then checks page 1, finds it unmapped and returns -1 | `start_vpn < end_vpn`, validating exactly the pages `unmap_all` empties | not executed; high | ProcessSyscalls.MunmapRejectsFreshMapping | ProcessSyscalls.MmapMunmapRoundTrip |
| os/src/syscall/sync.rs:130-143 | a granted mutex lock moves the id from the requested list to the held list before it waits in `mutex.lock()`, so a thread blocked on a mutex shows no pending request to the detector | thread 0 holds mutex 0, thread 1 holds mutex 1, detection is on; thread 0 locks mutex 1 and gets 0; thread 1 locks mutex 0 and also gets 0, and the two threads wait for each other for ever. | keep the request pending until `mutex.lock()` returns, as `sys_semaphore_down` does (lines 324-336); the second lock is then refused with -0xdead | not executed; medium | Sync.CrossedLocks | Sync.CrossedLocksCorrected |
| os/src/syscall/sync.rs:130-143 | the same grant-before-wait order records a thread waiting for a mutex as already holding it | thread 0 holds mutex 0, detection is on; thread 1 locks mutex 0 and gets 0; thread 0 locks mutex 0 again and also gets 0, and then waits on itself | keep the waiter's request pending, as above; the re-lock is then refused with -0xdead | not executed; medium | Sync.RelockWithWaiter | Sync.RelockWithWaiterCorrected |
