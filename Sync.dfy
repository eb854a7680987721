/**
 * The synchronization syscalls of os/src/syscall/sync.rs, as methods of the
 * process that owns the handle tables and the threads' resource ledgers.
 *
 * The calling thread is passed explicitly as its index `cur` in `tasks`.
 * The lock, semaphore and condition-variable objects themselves live in
 * code this model does not include; a handle-table slot records which
 * kind of object it holds and, for a semaphore, the count it was created
 * with.  The blocking `lock()`/`down()` calls are no-ops here.  The corrected lock splits the call at its wait instead:
 * `MutexLockCorrected` runs up to `mutex.lock()` and `MutexLockAcquired`
 * runs once it returns.
 */
module Sync {
  import opened Wrappers
  import opened Banker
  import opened Resources

  /** `-0xdead`: the acquisition was refused because it could deadlock */
  const WOULD_DEADLOCK: int := -0xdead

  datatype MutexHandle = SpinMutex | BlockingMutex
  datatype SemaphoreHandle = SemaphoreHandle(resCount: nat)
  datatype CondvarHandle = CondvarHandle

  /** `find(|(_, item)| item.is_none())`: the first empty slot of a handle table */
  method FirstFreeSlot<T>(slots: seq<Option<T>>) returns (r: Option<nat>)
    ensures r.Some? ==> r.value < |slots| && slots[r.value].None?
    ensures r.Some? ==> forall k | 0 <= k < r.value :: slots[k].Some?
    ensures r.None? ==> forall k | 0 <= k < |slots| :: slots[k].Some?
  {
    var id := 0;
    while id < |slots|
      invariant 0 <= id <= |slots|
      invariant forall k | 0 <= k < id :: slots[k].Some?
    {
      if slots[id].None? {
        return Some(id);
      }
      id := id + 1;
    }
    return None;
  }

  /** the snapshot is well formed and safe in the sense of the banker's algorithm */
  ghost predicate SnapshotSafe(s: Snapshot) {
    Shaped(|s.work|, s.need, s.allocation) && BankerSafe(s.work, s.need, s.allocation)
  }

  /**
   * Build the mutex snapshot (every mutex starts available) and run the
   * safety check on it.
   */
  method MutexDeadlockFree(tasks: seq<Option<ThreadRes>>, m: nat) returns (safe: bool)
    requires AllIdsBelow(tasks, MutexRes, m)
    ensures safe == SnapshotSafe(MutexSnapshot(tasks, m))
  {
    var snapshot := BuildMutexSnapshot(tasks, m);
    SnapshotsWellFormed(tasks, m, []);
    var work := new int[|snapshot.work|](j requires 0 <= j < |snapshot.work| => snapshot.work[j]);
    assert work[..] == snapshot.work;
    safe := Check(|tasks|, m, work, snapshot.need, snapshot.allocation);
  }

  /**
   * Build the semaphore snapshot (work starts from the creation counts)
   * and run the safety check on it.
   */
  method SemaphoreDeadlockFree(tasks: seq<Option<ThreadRes>>, available: seq<nat>) returns (safe: bool)
    requires AllIdsBelow(tasks, SemaphoreRes, |available|)
    ensures safe == SnapshotSafe(SemaphoreSnapshot(tasks, available))
  {
    var snapshot := BuildSemaphoreSnapshot(tasks, available);
    SnapshotsWellFormed(tasks, 0, available);
    var work := new int[|snapshot.work|](j requires 0 <= j < |snapshot.work| => snapshot.work[j]);
    assert work[..] == snapshot.work;
    safe := Check(|tasks|, |available|, work, snapshot.need, snapshot.allocation);
  }

  /** the ids two threads hold, summed */
  lemma TotalHeldOfTwo(a: Option<ThreadRes>, b: Option<ThreadRes>, k: Kind, j: nat)
    ensures TotalHeld([a, b], k, j) == Held(a, k, j) + Held(b, k, j)
  {
    assert [a, b][..1] == [a];
    assert TotalHeld([a, b], k, j) == TotalHeld([a], k, j) + Held(b, k, j);
    assert [a][..0] == [];
    assert TotalHeld([a], k, j) == TotalHeld([], k, j) + Held(a, k, j);
  }

  /**
   * The snapshot of two threads that each hold one mutex and have a
   * pending request for the other's.  `MutexLock` never leaves a request
   * pending, so only `MutexLockCorrected` reaches these ledgers.
   */
  lemma CrossedSnapshot()
    ensures MutexSnapshot([Some(ThreadRes([1], [0], [], [])), Some(ThreadRes([0], [1], [], []))], 2)
            == Snapshot([0, 0], [[0, 1], [1, 0]], [[1, 0], [0, 1]])
  {
    var t0, t1 := ThreadRes([1], [0], [], []), ThreadRes([0], [1], [], []);
    TotalHeldOfTwo(Some(t0), Some(t1), MutexRes, 0);
    TotalHeldOfTwo(Some(t0), Some(t1), MutexRes, 1);
    assert multiset(t0.Allocated(MutexRes))[0] == 1 && multiset(t1.Allocated(MutexRes))[1] == 1;
    assert NeedRow(Some(t0), MutexRes, 2) == [0, 1] && NeedRow(Some(t1), MutexRes, 2) == [1, 0];
    assert MutexAllocRow(Some(t0), 2) == [1, 0] && MutexAllocRow(Some(t1), 2) == [0, 1];
  }

  /**
   * Two threads each hold one mutex and wait for the other's: the detector
   * finds no thread that can finish, so the second request is refused.
   * Only `MutexLockCorrected` reaches this snapshot; the lock as written
   * grants both crossed requests (`CrossedLocks`).
   */
  lemma CrossedRequestsRefused()
    ensures var t0 := ThreadRes([1], [0], [], []);
            var t1 := ThreadRes([0], [1], [], []);
            !SnapshotSafe(MutexSnapshot([Some(t0), Some(t1)], 2))
  {
    CrossedSnapshot();
    var need, allocation := [[0, 1], [1, 0]], [[1, 0], [0, 1]];
    assert need[0][1] > 0 && need[1][0] > 0;
    assert FirstRunnable(need, [0, 0], Falses(2), 0) == 2;
    RunStop(need, allocation, [0, 0], Falses(2), []);
    assert !Falses(2)[0];
  }

  /** The snapshot of a thread holding mutex 0 and asking for mutex 1, held by an idle thread. */
  lemma OneWaiterSnapshot()
    ensures MutexSnapshot([Some(ThreadRes([1], [0], [], [])), Some(ThreadRes([], [1], [], []))], 2)
            == Snapshot([0, 0], [[0, 1], [0, 0]], [[1, 0], [0, 1]])
  {
    var t0, t1 := ThreadRes([1], [0], [], []), ThreadRes([], [1], [], []);
    TotalHeldOfTwo(Some(t0), Some(t1), MutexRes, 0);
    TotalHeldOfTwo(Some(t0), Some(t1), MutexRes, 1);
    assert multiset(t0.Allocated(MutexRes))[0] == 1 && multiset(t1.Allocated(MutexRes))[1] == 1;
    assert NeedRow(Some(t0), MutexRes, 2) == [0, 1] && NeedRow(Some(t1), MutexRes, 2) == [0, 0];
    assert MutexAllocRow(Some(t0), 2) == [1, 0] && MutexAllocRow(Some(t1), 2) == [0, 1];
  }

  /**
   * One thread holds mutex 0 and asks for mutex 1, which the other thread
   * holds without asking for anything: the second thread can finish first,
   * so the request is granted.
   */
  lemma OneWaiterGranted()
    ensures var t0 := ThreadRes([1], [0], [], []);
            var t1 := ThreadRes([], [1], [], []);
            SnapshotSafe(MutexSnapshot([Some(t0), Some(t1)], 2))
  {
    OneWaiterSnapshot();
    var need, allocation := [[0, 1], [0, 0]], [[1, 0], [0, 1]];
    assert need[0][1] > 0;
    assert FirstRunnable(need, [0, 0], Falses(2), 0) == 1;
    RunStep(need, allocation, [0, 0], Falses(2), []);
    assert Falses(2)[1 := true] == [false, true];
    assert AddRow([0, 0], allocation[1]) == [0, 1];
    assert FirstRunnable(need, [0, 1], [false, true], 0) == 0;
    RunStep(need, allocation, [0, 1], [false, true], [1]);
    assert AddRow([0, 1], allocation[0]) == [1, 1];
    assert FirstRunnable(need, [1, 1], [true, true], 0) == 2;
    RunStop(need, allocation, [1, 1], [true, true], [1, 0]);
  }

  /** The snapshot of the only thread, holding mutex 0 and asking for it again. */
  lemma RelockSnapshot()
    ensures MutexSnapshot([Some(ThreadRes([0], [0], [], []))], 1) == Snapshot([0], [[1]], [[1]])
  {
    var t := ThreadRes([0], [0], [], []);
    assert [Some(t)][..0] == [];
    assert TotalHeld([Some(t)], MutexRes, 0) == 1;
    assert NeedRow(Some(t), MutexRes, 1) == [1];
    assert MutexAllocRow(Some(t), 1) == [1];
  }

  /**
   * A thread that locks a mutex only it holds can never be served: its
   * need row does not fit in the work left, so the request is refused.
   */
  lemma RelockRefused()
    ensures !SnapshotSafe(MutexSnapshot([Some(ThreadRes([0], [0], [], []))], 1))
  {
    RelockSnapshot();
    var need, allocation := [[1]], [[1]];
    assert FirstRunnable(need, [0], Falses(1), 0) == 1;
    RunStop(need, allocation, [0], Falses(1), []);
    assert !Falses(1)[0];
  }

  /**
   * The snapshot after `MutexLock` granted thread 0 the mutex 1 that thread 1
   * holds, when thread 1 asks for mutex 0: thread 0 is recorded as holding
   * both mutexes and asking for nothing.
   */
  lemma HeldBothSnapshot()
    ensures MutexSnapshot([Some(ThreadRes([], [0, 1], [], [])), Some(ThreadRes([0], [1], [], []))], 2)
            == Snapshot([0, 0], [[0, 0], [1, 0]], [[1, 1], [0, 1]])
  {
    var t0, t1 := ThreadRes([], [0, 1], [], []), ThreadRes([0], [1], [], []);
    TotalHeldOfTwo(Some(t0), Some(t1), MutexRes, 0);
    TotalHeldOfTwo(Some(t0), Some(t1), MutexRes, 1);
    assert multiset(t0.Allocated(MutexRes)) == multiset{0, 1} && multiset(t1.Allocated(MutexRes))[1] == 1;
    assert NeedRow(Some(t0), MutexRes, 2) == [0, 0] && NeedRow(Some(t1), MutexRes, 2) == [1, 0];
    assert MutexAllocRow(Some(t0), 2) == [1, 1] && MutexAllocRow(Some(t1), 2) == [0, 1];
  }

  /** On that snapshot, thread 0 finishes first and then thread 1. */
  lemma HeldBothRun()
    ensures Shaped(2, [[0, 0], [1, 0]], [[1, 1], [0, 1]])
    ensures BankerSafe([0, 0], [[0, 0], [1, 0]], [[1, 1], [0, 1]])
  {
    var need, allocation := [[0, 0], [1, 0]], [[1, 1], [0, 1]];
    assert FirstRunnable(need, [0, 0], Falses(2), 0) == 0;
    RunStep(need, allocation, [0, 0], Falses(2), []);
    assert Falses(2)[0 := true] == [true, false];
    assert AddRow([0, 0], allocation[0]) == [1, 1];
    assert FirstRunnable(need, [1, 1], [true, false], 0) == 1 by {
      assert [true, false][0] && Fits(need[1], [1, 1]);
    }
    RunStep(need, allocation, [1, 1], [true, false], [0]);
    assert [true, false][1 := true] == [true, true];
    assert AddRow([1, 1], allocation[1]) == [1, 2];
    assert FirstRunnable(need, [1, 2], [true, true], 0) == 2;
    RunStop(need, allocation, [1, 2], [true, true], [0, 1]);
  }

  /** Thread 0 looks able to finish, and then thread 1 can: the request is granted. */
  lemma HeldBothGranted()
    ensures SnapshotSafe(MutexSnapshot([Some(ThreadRes([], [0, 1], [], [])), Some(ThreadRes([0], [1], [], []))], 2))
  {
    HeldBothSnapshot();
    HeldBothRun();
  }


  /** The snapshot when thread 1 asks for mutex 0, which thread 0 holds. */
  lemma WaiterSnapshot()
    ensures MutexSnapshot([Some(ThreadRes([], [0], [], [])), Some(ThreadRes([0], [], [], []))], 2)
            == Snapshot([0, 1], [[0, 0], [1, 0]], [[1, 0], [0, 0]])
  {
    var t0, t1 := ThreadRes([], [0], [], []), ThreadRes([0], [], [], []);
    TotalHeldOfTwo(Some(t0), Some(t1), MutexRes, 0);
    TotalHeldOfTwo(Some(t0), Some(t1), MutexRes, 1);
    assert multiset(t0.Allocated(MutexRes))[0] == 1 && multiset(t0.Allocated(MutexRes))[1] == 0;
    assert NeedRow(Some(t0), MutexRes, 2) == [0, 0] && NeedRow(Some(t1), MutexRes, 2) == [1, 0];
    assert MutexAllocRow(Some(t0), 2) == [1, 0] && MutexAllocRow(Some(t1), 2) == [0, 0];
  }

  /** The holder can finish first, and then the waiter: the request is granted. */
  lemma WaiterGranted()
    ensures SnapshotSafe(MutexSnapshot([Some(ThreadRes([], [0], [], [])), Some(ThreadRes([0], [], [], []))], 2))
  {
    WaiterSnapshot();
    var need, allocation := [[0, 0], [1, 0]], [[1, 0], [0, 0]];
    assert FirstRunnable(need, [0, 1], Falses(2), 0) == 0;
    RunStep(need, allocation, [0, 1], Falses(2), []);
    assert Falses(2)[0 := true] == [true, false];
    assert AddRow([0, 1], allocation[0]) == [1, 1];
    assert FirstRunnable(need, [1, 1], [true, false], 0) == 1 by {
      assert [true, false][0] && Fits(need[1], [1, 1]);
    }
    RunStep(need, allocation, [1, 1], [true, false], [0]);
    assert [true, false][1 := true] == [true, true];
    assert AddRow([1, 1], allocation[1]) == [1, 1];
    assert FirstRunnable(need, [1, 1], [true, true], 0) == 2;
    RunStop(need, allocation, [1, 1], [true, true], [0, 1]);
  }

  /**
   * The snapshot when thread 0 locks mutex 0 again after `MutexLock` granted
   * it to a waiting thread 1: both threads are recorded as holding it, and
   * thread 1 asks for nothing.
   */
  lemma RelockAfterGrantSnapshot()
    ensures MutexSnapshot([Some(ThreadRes([0], [0], [], [])), Some(ThreadRes([], [0], [], []))], 2)
            == Snapshot([0, 1], [[1, 0], [0, 0]], [[1, 0], [1, 0]])
  {
    var t0, t1 := ThreadRes([0], [0], [], []), ThreadRes([], [0], [], []);
    TotalHeldOfTwo(Some(t0), Some(t1), MutexRes, 0);
    TotalHeldOfTwo(Some(t0), Some(t1), MutexRes, 1);
    assert multiset(t0.Allocated(MutexRes))[0] == 1 && multiset(t0.Allocated(MutexRes))[1] == 0;
    assert multiset(t1.Allocated(MutexRes))[1] == 0;
    assert NeedRow(Some(t0), MutexRes, 2) == [1, 0] && NeedRow(Some(t1), MutexRes, 2) == [0, 0];
    assert MutexAllocRow(Some(t0), 2) == [1, 0] && MutexAllocRow(Some(t1), 2) == [1, 0];
  }

  /** On that snapshot, thread 1 finishes first and then thread 0. */
  lemma RelockAfterGrantRun()
    ensures Shaped(2, [[1, 0], [0, 0]], [[1, 0], [1, 0]])
    ensures BankerSafe([0, 1], [[1, 0], [0, 0]], [[1, 0], [1, 0]])
  {
    var need, allocation := [[1, 0], [0, 0]], [[1, 0], [1, 0]];
    assert FirstRunnable(need, [0, 1], Falses(2), 0) == 1 by {
      assert need[0][0] > 0;
    }
    RunStep(need, allocation, [0, 1], Falses(2), []);
    assert Falses(2)[1 := true] == [false, true];
    assert AddRow([0, 1], allocation[1]) == [1, 1];
    assert FirstRunnable(need, [1, 1], [false, true], 0) == 0;
    RunStep(need, allocation, [1, 1], [false, true], [1]);
    assert [false, true][0 := true] == [true, true];
    assert AddRow([1, 1], allocation[0]) == [2, 1];
    assert FirstRunnable(need, [2, 1], [true, true], 0) == 2;
    RunStop(need, allocation, [2, 1], [true, true], [1, 0]);
  }

  /**
   * Thread 1 looks able to finish and give mutex 0 back, after which thread
   * 0's request fits: the re-lock is granted.
   */
  lemma RelockAfterGrantGranted()
    ensures SnapshotSafe(MutexSnapshot([Some(ThreadRes([0], [0], [], [])), Some(ThreadRes([], [0], [], []))], 2))
  {
    RelockAfterGrantSnapshot();
    RelockAfterGrantRun();
  }

  /**
   * The same re-lock when thread 1's request is still pending, as the
   * corrected lock leaves it while thread 1 waits.
   */
  lemma RelockPendingSnapshot()
    ensures MutexSnapshot([Some(ThreadRes([0], [0], [], [])), Some(ThreadRes([0], [], [], []))], 2)
            == Snapshot([0, 1], [[1, 0], [1, 0]], [[1, 0], [0, 0]])
  {
    var t0, t1 := ThreadRes([0], [0], [], []), ThreadRes([0], [], [], []);
    TotalHeldOfTwo(Some(t0), Some(t1), MutexRes, 0);
    TotalHeldOfTwo(Some(t0), Some(t1), MutexRes, 1);
    assert multiset(t0.Allocated(MutexRes))[0] == 1 && multiset(t0.Allocated(MutexRes))[1] == 0;
    assert NeedRow(Some(t0), MutexRes, 2) == [1, 0] && NeedRow(Some(t1), MutexRes, 2) == [1, 0];
    assert MutexAllocRow(Some(t0), 2) == [1, 0] && MutexAllocRow(Some(t1), 2) == [0, 0];
  }

  /** Both threads wait for mutex 0, which neither can get: the re-lock is refused. */
  lemma RelockPendingRefused()
    ensures !SnapshotSafe(MutexSnapshot([Some(ThreadRes([0], [0], [], [])), Some(ThreadRes([0], [], [], []))], 2))
  {
    RelockPendingSnapshot();
    var need, allocation := [[1, 0], [1, 0]], [[1, 0], [0, 0]];
    assert need[0][0] > 0 && need[1][0] > 0;
    assert FirstRunnable(need, [0, 1], Falses(2), 0) == 2;
    RunStop(need, allocation, [0, 1], Falses(2), []);
    assert !Falses(2)[0];
  }

  class Process {
    /** one ledger per thread slot; an exited thread leaves an empty slot */
    var tasks: seq<Option<ThreadRes>>
    var mutexList: seq<Option<MutexHandle>>
    var semaphoreList: seq<Option<SemaphoreHandle>>
    /** the count each semaphore was created with, read by the detector */
    var semaphoreAvailable: seq<nat>
    var condvarList: seq<Option<CondvarHandle>>
    /** `need_deadlock`: nonzero when deadlock detection is enabled */
    var needDeadlock: nat

    /**
     * The two semaphore tables have the same length, and every id in a
     * ledger names a slot of its table (the snapshot indexes by it).
     */
    ghost predicate Valid()
      reads this
    {
      && |semaphoreAvailable| == |semaphoreList|
      && AllIdsBelow(tasks, MutexRes, |mutexList|)
      && AllIdsBelow(tasks, SemaphoreRes, |semaphoreList|)
    }

    /**
     * A new process: empty handle tables, detection off, and one main
     * thread whose ledger is empty.
     */
    constructor ()
      ensures Valid()
      ensures tasks == [Some(ThreadRes([], [], [], []))]
      ensures mutexList == [] && semaphoreList == [] && semaphoreAvailable == [] && condvarList == []
      ensures needDeadlock == 0
    {
      tasks := [Some(ThreadRes([], [], [], []))];
      mutexList := [];
      semaphoreList := [];
      semaphoreAvailable := [];
      condvarList := [];
      needDeadlock := 0;
    }

    /** `sys_mutex_create`: reuse the first empty slot, else append */
    method MutexCreate(blocking: bool) returns (id: nat)
      requires Valid()
      modifies this
      ensures Valid()
      ensures var h := if blocking then BlockingMutex else SpinMutex;
              if id < old(|mutexList|) then
                && old(mutexList[id]).None?
                && (forall k | 0 <= k < id :: old(mutexList[k]).Some?)
                && mutexList == old(mutexList)[id := Some(h)]
              else
                && id == old(|mutexList|)
                && (forall k | 0 <= k < id :: old(mutexList[k]).Some?)
                && mutexList == old(mutexList) + [Some(h)]
      ensures tasks == old(tasks) && semaphoreList == old(semaphoreList)
      ensures semaphoreAvailable == old(semaphoreAvailable) && condvarList == old(condvarList)
      ensures needDeadlock == old(needDeadlock)
    {
      var mutex := if blocking then BlockingMutex else SpinMutex;
      var free := FirstFreeSlot(mutexList);
      if free.Some? {
        id := free.value;
        mutexList := mutexList[id := Some(mutex)];
      } else {
        mutexList := mutexList + [Some(mutex)];
        id := |mutexList| - 1;
      }
    }

    /**
     * `sys_semaphore_create`: reuse the first empty slot, else append, and
     * record `res_count` at the same index of `semaphoreAvailable`.
     */
    method SemaphoreCreate(resCount: nat) returns (id: nat)
      requires Valid()
      modifies this
      ensures Valid()
      ensures var h := SemaphoreHandle(resCount);
              if id < old(|semaphoreList|) then
                && old(semaphoreList[id]).None?
                && (forall k | 0 <= k < id :: old(semaphoreList[k]).Some?)
                && semaphoreList == old(semaphoreList)[id := Some(h)]
                && semaphoreAvailable == old(semaphoreAvailable)[id := resCount]
              else
                && id == old(|semaphoreList|)
                && (forall k | 0 <= k < id :: old(semaphoreList[k]).Some?)
                && semaphoreList == old(semaphoreList) + [Some(h)]
                && semaphoreAvailable == old(semaphoreAvailable) + [resCount]
      ensures tasks == old(tasks) && mutexList == old(mutexList)
      ensures condvarList == old(condvarList) && needDeadlock == old(needDeadlock)
    {
      var free := FirstFreeSlot(semaphoreList);
      if free.Some? {
        id := free.value;
        semaphoreList := semaphoreList[id := Some(SemaphoreHandle(resCount))];
        semaphoreAvailable := semaphoreAvailable[id := resCount];
      } else {
        semaphoreList := semaphoreList + [Some(SemaphoreHandle(resCount))];
        semaphoreAvailable := semaphoreAvailable + [resCount];
        id := |semaphoreList| - 1;
      }
    }

    /** `sys_condvar_create`: reuse the first empty slot, else append */
    method CondvarCreate() returns (id: nat)
      requires Valid()
      modifies this
      ensures Valid()
      ensures if id < old(|condvarList|) then
                && old(condvarList[id]).None?
                && (forall k | 0 <= k < id :: old(condvarList[k]).Some?)
                && condvarList == old(condvarList)[id := Some(CondvarHandle)]
              else
                && id == old(|condvarList|)
                && (forall k | 0 <= k < id :: old(condvarList[k]).Some?)
                && condvarList == old(condvarList) + [Some(CondvarHandle)]
      ensures tasks == old(tasks) && mutexList == old(mutexList) && semaphoreList == old(semaphoreList)
      ensures semaphoreAvailable == old(semaphoreAvailable) && needDeadlock == old(needDeadlock)
    {
      var free := FirstFreeSlot(condvarList);
      if free.Some? {
        id := free.value;
        condvarList := condvarList[id := Some(CondvarHandle)];
      } else {
        condvarList := condvarList + [Some(CondvarHandle)];
        id := |condvarList| - 1;
      }
    }

    /** `sys_enable_deadlock_detect` */
    method EnableDeadlockDetect(enabled: nat) returns (r: int)
      modifies this
      ensures r == 0 && needDeadlock == enabled
      ensures tasks == old(tasks) && mutexList == old(mutexList) && semaphoreList == old(semaphoreList)
      ensures semaphoreAvailable == old(semaphoreAvailable) && condvarList == old(condvarList)
    {
      needDeadlock := enabled;
      r := 0;
    }

    /**
     * `sys_mutex_lock`: record the request, snapshot every thread's ledger,
     * and either grant (detection off, or the snapshot is safe) or withdraw
     * the request and refuse.
     */
    method MutexLock(cur: nat, mutexId: nat) returns (r: int)
      requires Valid()
      requires cur < |tasks| && tasks[cur].Some?
      requires mutexId < |mutexList| && mutexList[mutexId].Some?
      modifies this
      ensures Valid()
      ensures var requested := Request(old(tasks[cur].value), MutexRes, mutexId);
              var granted := needDeadlock == 0 || SnapshotSafe(MutexSnapshot(old(tasks)[cur := Some(requested)], |mutexList|));
              && (granted ==> r == 0 && tasks == old(tasks)[cur := Some(Grant(requested, MutexRes, mutexId))])
              && (!granted ==> r == WOULD_DEADLOCK && tasks == old(tasks)[cur := Some(Withdraw(requested, MutexRes, mutexId))])
      ensures mutexList == old(mutexList) && semaphoreList == old(semaphoreList)
      ensures semaphoreAvailable == old(semaphoreAvailable) && condvarList == old(condvarList)
      ensures needDeadlock == old(needDeadlock)
    {
      var t := tasks[cur].value;
      var requested := Request(t, MutexRes, mutexId);
      UpdatesKeepIdsBelow(t, MutexRes, mutexId, MutexRes, |mutexList|);
      UpdatesKeepIdsBelow(t, MutexRes, mutexId, SemaphoreRes, |semaphoreList|);
      var before := tasks;
      tasks := tasks[cur := Some(requested)];
      ReplaceKeepsAllIdsBelow(before, cur, requested, MutexRes, |mutexList|);
      var granted := true;
      if needDeadlock != 0 {
        granted := MutexDeadlockFree(tasks, |mutexList|);
      }
      var t' := if granted then Grant(requested, MutexRes, mutexId) else Withdraw(requested, MutexRes, mutexId);
      // on a grant, mutex.lock() would block here until the lock is free
      tasks := before[cur := Some(t')];
      ReplaceKeepsAllIdsBelow(before, cur, t', MutexRes, |mutexList|);
      ReplaceKeepsAllIdsBelow(before, cur, t', SemaphoreRes, |semaphoreList|);
      r := if granted then 0 else WOULD_DEADLOCK;
    }

    /**
     * `sys_mutex_lock` with the grant moved after the wait, as
     * `sys_semaphore_down` orders it: a granted request stays pending while
     * the thread waits in `mutex.lock()`, so later snapshots still see it;
     * `MutexLockAcquired` completes the call once the lock is taken.
     */
    method MutexLockCorrected(cur: nat, mutexId: nat) returns (r: int)
      requires Valid()
      requires cur < |tasks| && tasks[cur].Some?
      requires mutexId < |mutexList| && mutexList[mutexId].Some?
      modifies this
      ensures Valid()
      ensures var requested := Request(old(tasks[cur].value), MutexRes, mutexId);
              var granted := needDeadlock == 0 || SnapshotSafe(MutexSnapshot(old(tasks)[cur := Some(requested)], |mutexList|));
              && (granted ==> r == 0 && tasks == old(tasks)[cur := Some(requested)])
              && (!granted ==> r == WOULD_DEADLOCK && tasks == old(tasks)[cur := Some(Withdraw(requested, MutexRes, mutexId))])
      ensures mutexList == old(mutexList) && semaphoreList == old(semaphoreList)
      ensures semaphoreAvailable == old(semaphoreAvailable) && condvarList == old(condvarList)
      ensures needDeadlock == old(needDeadlock)
    {
      var t := tasks[cur].value;
      var requested := Request(t, MutexRes, mutexId);
      UpdatesKeepIdsBelow(t, MutexRes, mutexId, MutexRes, |mutexList|);
      UpdatesKeepIdsBelow(t, MutexRes, mutexId, SemaphoreRes, |semaphoreList|);
      var before := tasks;
      tasks := tasks[cur := Some(requested)];
      ReplaceKeepsAllIdsBelow(before, cur, requested, MutexRes, |mutexList|);
      ReplaceKeepsAllIdsBelow(before, cur, requested, SemaphoreRes, |semaphoreList|);
      var granted := true;
      if needDeadlock != 0 {
        granted := MutexDeadlockFree(tasks, |mutexList|);
      }
      if granted {
        // mutex.lock() would block here, with the request still pending
        r := 0;
      } else {
        var t' := Withdraw(requested, MutexRes, mutexId);
        tasks := before[cur := Some(t')];
        ReplaceKeepsAllIdsBelow(before, cur, t', MutexRes, |mutexList|);
        ReplaceKeepsAllIdsBelow(before, cur, t', SemaphoreRes, |semaphoreList|);
        r := WOULD_DEADLOCK;
      }
    }

    /** `mutex.lock()` returned: the pending request becomes a holding */
    method MutexLockAcquired(cur: nat, mutexId: nat)
      requires Valid()
      requires cur < |tasks| && tasks[cur].Some?
      requires mutexId < |mutexList| && mutexList[mutexId].Some?
      modifies this
      ensures Valid()
      ensures tasks == old(tasks)[cur := Some(Grant(old(tasks[cur].value), MutexRes, mutexId))]
      ensures mutexList == old(mutexList) && semaphoreList == old(semaphoreList)
      ensures semaphoreAvailable == old(semaphoreAvailable) && condvarList == old(condvarList)
      ensures needDeadlock == old(needDeadlock)
    {
      var t := tasks[cur].value;
      GrantKeepsIdsBelow(t, MutexRes, mutexId, MutexRes, |mutexList|);
      GrantKeepsIdsBelow(t, MutexRes, mutexId, SemaphoreRes, |semaphoreList|);
      ReplaceKeepsAllIdsBelow(tasks, cur, Grant(t, MutexRes, mutexId), MutexRes, |mutexList|);
      ReplaceKeepsAllIdsBelow(tasks, cur, Grant(t, MutexRes, mutexId), SemaphoreRes, |semaphoreList|);
      tasks := tasks[cur := Some(Grant(t, MutexRes, mutexId))];
    }

    /** `sys_mutex_unlock`: drop one held occurrence of the id */
    method MutexUnlock(cur: nat, mutexId: nat) returns (r: int)
      requires Valid()
      requires cur < |tasks| && tasks[cur].Some?
      requires mutexId < |mutexList| && mutexList[mutexId].Some?
      modifies this
      ensures Valid()
      ensures r == 0 && tasks == old(tasks)[cur := Some(Release(old(tasks[cur].value), MutexRes, mutexId))]
      ensures mutexList == old(mutexList) && semaphoreList == old(semaphoreList)
      ensures semaphoreAvailable == old(semaphoreAvailable) && condvarList == old(condvarList)
      ensures needDeadlock == old(needDeadlock)
    {
      var t := tasks[cur].value;
      UpdatesKeepIdsBelow(t, MutexRes, mutexId, MutexRes, |mutexList|);
      UpdatesKeepIdsBelow(t, MutexRes, mutexId, SemaphoreRes, |semaphoreList|);
      ReplaceKeepsAllIdsBelow(tasks, cur, Release(t, MutexRes, mutexId), MutexRes, |mutexList|);
      ReplaceKeepsAllIdsBelow(tasks, cur, Release(t, MutexRes, mutexId), SemaphoreRes, |semaphoreList|);
      tasks := tasks[cur := Some(Release(t, MutexRes, mutexId))];
      // mutex.unlock() would wake a waiter here
      r := 0;
    }

    /** `sys_semaphore_up`: drop one held occurrence of the id */
    method SemaphoreUp(cur: nat, semId: nat) returns (r: int)
      requires Valid()
      requires cur < |tasks| && tasks[cur].Some?
      requires semId < |semaphoreList| && semaphoreList[semId].Some?
      modifies this
      ensures Valid()
      ensures r == 0 && tasks == old(tasks)[cur := Some(Release(old(tasks[cur].value), SemaphoreRes, semId))]
      ensures mutexList == old(mutexList) && semaphoreList == old(semaphoreList)
      ensures semaphoreAvailable == old(semaphoreAvailable) && condvarList == old(condvarList)
      ensures needDeadlock == old(needDeadlock)
    {
      var t := tasks[cur].value;
      UpdatesKeepIdsBelow(t, SemaphoreRes, semId, MutexRes, |mutexList|);
      UpdatesKeepIdsBelow(t, SemaphoreRes, semId, SemaphoreRes, |semaphoreList|);
      ReplaceKeepsAllIdsBelow(tasks, cur, Release(t, SemaphoreRes, semId), MutexRes, |mutexList|);
      ReplaceKeepsAllIdsBelow(tasks, cur, Release(t, SemaphoreRes, semId), SemaphoreRes, |semaphoreList|);
      tasks := tasks[cur := Some(Release(t, SemaphoreRes, semId))];
      // sem.up() would wake a waiter here
      r := 0;
    }

    /**
     * `sys_semaphore_down`: as `MutexLock`, with the semaphore snapshot,
     * whose work starts from `semaphoreAvailable`.
     */
    method SemaphoreDown(cur: nat, semId: nat) returns (r: int)
      requires Valid()
      requires cur < |tasks| && tasks[cur].Some?
      requires semId < |semaphoreList| && semaphoreList[semId].Some?
      modifies this
      ensures Valid()
      ensures var requested := Request(old(tasks[cur].value), SemaphoreRes, semId);
              var granted := needDeadlock == 0 || SnapshotSafe(SemaphoreSnapshot(old(tasks)[cur := Some(requested)], semaphoreAvailable));
              && (granted ==> r == 0 && tasks == old(tasks)[cur := Some(Grant(requested, SemaphoreRes, semId))])
              && (!granted ==> r == WOULD_DEADLOCK && tasks == old(tasks)[cur := Some(Withdraw(requested, SemaphoreRes, semId))])
      ensures mutexList == old(mutexList) && semaphoreList == old(semaphoreList)
      ensures semaphoreAvailable == old(semaphoreAvailable) && condvarList == old(condvarList)
      ensures needDeadlock == old(needDeadlock)
    {
      var t := tasks[cur].value;
      var requested := Request(t, SemaphoreRes, semId);
      UpdatesKeepIdsBelow(t, SemaphoreRes, semId, MutexRes, |mutexList|);
      UpdatesKeepIdsBelow(t, SemaphoreRes, semId, SemaphoreRes, |semaphoreList|);
      var before := tasks;
      tasks := tasks[cur := Some(requested)];
      ReplaceKeepsAllIdsBelow(before, cur, requested, SemaphoreRes, |semaphoreList|);
      var granted := true;
      if needDeadlock != 0 {
        granted := SemaphoreDeadlockFree(tasks, semaphoreAvailable);
      }
      // on a grant, sem.down() would block here while the count is exhausted
      var t' := if granted then Grant(requested, SemaphoreRes, semId) else Withdraw(requested, SemaphoreRes, semId);
      tasks := before[cur := Some(t')];
      ReplaceKeepsAllIdsBelow(before, cur, t', MutexRes, |mutexList|);
      ReplaceKeepsAllIdsBelow(before, cur, t', SemaphoreRes, |semaphoreList|);
      r := if granted then 0 else WOULD_DEADLOCK;
    }
  }

  /** A thread with no other pending mutex request asks for `id`, then is granted it or withdraws. */
  lemma SoleRequest(held: seq<nat>, id: nat)
    ensures Request(ThreadRes([], held, [], []), MutexRes, id) == ThreadRes([id], held, [], [])
    ensures Grant(ThreadRes([id], held, [], []), MutexRes, id) == ThreadRes([], held + [id], [], [])
    ensures Withdraw(ThreadRes([id], held, [], []), MutexRes, id) == ThreadRes([], held, [], [])
  {
    assert RemoveFirst([id], id) == [];
  }

  /**
   * A process whose main thread holds the mutex it created, with detection
   * on: locking that mutex again is refused.
   */
  method Relock() returns (first: int, second: int)
    ensures first == 0 && second == WOULD_DEADLOCK
  {
    var p := new Process();
    var m := p.MutexCreate(true);
    assert m == 0 && |p.mutexList| == 1;
    SoleRequest([], 0);
    first := p.MutexLock(0, m);
    assert p.tasks == [Some(ThreadRes([], [0], [], []))];
    var _ := p.EnableDeadlockDetect(1);
    SoleRequest([0], 0);
    assert p.tasks[0 := Some(ThreadRes([0], [0], [], []))] == [Some(ThreadRes([0], [0], [], []))];
    RelockRefused();
    second := p.MutexLock(0, m);
  }

  /**
   * A process with two threads whose ledgers are empty, two blocking
   * mutexes and detection off.  Thread creation is not part of this model,
   * so the second thread's empty ledger is appended directly.
   */
  method TwoThreads() returns (p: Process)
    ensures fresh(p) && p.Valid()
    ensures p.tasks == [Some(ThreadRes([], [], [], [])), Some(ThreadRes([], [], [], []))]
    ensures |p.mutexList| == 2 && p.mutexList[0].Some? && p.mutexList[1].Some?
    ensures p.needDeadlock == 0
  {
    p := new Process();
    var m0 := p.MutexCreate(true);
    var m1 := p.MutexCreate(true);
    assert m0 == 0 && m1 == 1 && |p.mutexList| == 2;
    p.tasks := p.tasks + [Some(ThreadRes([], [], [], []))];
  }

  /** From `TwoThreads`, thread 0 takes mutex 0 and thread 1 mutex 1; then detection is turned on. */
  method TwoHolders() returns (p: Process)
    ensures fresh(p) && p.Valid()
    ensures p.tasks == [Some(ThreadRes([], [0], [], [])), Some(ThreadRes([], [1], [], []))]
    ensures |p.mutexList| == 2 && p.mutexList[0].Some? && p.mutexList[1].Some?
    ensures p.needDeadlock == 1
  {
    p := TwoThreads();
    var e := ThreadRes([], [], [], []);
    SoleRequest([], 0);
    var a := p.MutexLock(0, 0);
    assert p.tasks == [Some(ThreadRes([], [0], [], [])), Some(e)];
    SoleRequest([], 1);
    var b := p.MutexLock(1, 1);
    assert p.tasks == [Some(ThreadRes([], [0], [], [])), Some(ThreadRes([], [1], [], []))];
    var _ := p.EnableDeadlockDetect(1);
  }

  /** `TwoHolders` reached with the corrected lock, each lock taken at once. */
  method TwoHoldersCorrected() returns (p: Process)
    ensures fresh(p) && p.Valid()
    ensures p.tasks == [Some(ThreadRes([], [0], [], [])), Some(ThreadRes([], [1], [], []))]
    ensures |p.mutexList| == 2 && p.mutexList[0].Some? && p.mutexList[1].Some?
    ensures p.needDeadlock == 1
  {
    p := TwoThreads();
    var e := ThreadRes([], [], [], []);
    SoleRequest([], 0);
    var a := p.MutexLockCorrected(0, 0);
    assert p.tasks == [Some(ThreadRes([0], [], [], [])), Some(e)];
    p.MutexLockAcquired(0, 0);
    assert p.tasks == [Some(ThreadRes([], [0], [], [])), Some(e)];
    SoleRequest([], 1);
    var b := p.MutexLockCorrected(1, 1);
    assert p.tasks == [Some(ThreadRes([], [0], [], [])), Some(ThreadRes([1], [], [], []))];
    p.MutexLockAcquired(1, 1);
    assert p.tasks == [Some(ThreadRes([], [0], [], [])), Some(ThreadRes([], [1], [], []))];
    var _ := p.EnableDeadlockDetect(1);
  }

  /**
   * From `TwoHolders`, thread 0 locks mutex 1 and then thread 1 locks mutex
   * 0.  `MutexLock` grants both, after which both threads would wait in
   * `mutex.lock()` for ever, and the ledgers record each mutex as held by
   * both threads.
   */
  method CrossedLocks() returns (r0: int, r1: int, ledgers: seq<Option<ThreadRes>>)
    ensures r0 == 0 && r1 == 0
    ensures ledgers == [Some(ThreadRes([], [0, 1], [], [])), Some(ThreadRes([], [1, 0], [], []))]
  {
    var p := TwoHolders();
    var t1 := ThreadRes([], [1], [], []);
    SoleRequest([0], 1);
    assert p.tasks[0 := Some(ThreadRes([1], [0], [], []))] == [Some(ThreadRes([1], [0], [], [])), Some(t1)];
    OneWaiterGranted();
    r0 := p.MutexLock(0, 1);
    assert [0] + [1] == [0, 1];
    assert p.tasks == [Some(ThreadRes([], [0, 1], [], [])), Some(t1)];
    SoleRequest([1], 0);
    assert p.tasks[1 := Some(ThreadRes([0], [1], [], []))]
        == [Some(ThreadRes([], [0, 1], [], [])), Some(ThreadRes([0], [1], [], []))];
    HeldBothGranted();
    r1 := p.MutexLock(1, 0);
    assert [1] + [0] == [1, 0];
    ledgers := p.tasks;
  }

  /**
   * The same sequence with the corrected lock: thread 0's granted request
   * stays pending while it waits for mutex 1, so thread 1's request for
   * mutex 0 closes a cycle the detector sees, and it is refused.
   */
  method CrossedLocksCorrected() returns (r0: int, r1: int, ledgers: seq<Option<ThreadRes>>)
    ensures r0 == 0 && r1 == WOULD_DEADLOCK
    ensures ledgers == [Some(ThreadRes([1], [0], [], [])), Some(ThreadRes([], [1], [], []))]
  {
    var p := TwoHoldersCorrected();
    var t1 := ThreadRes([], [1], [], []);
    SoleRequest([0], 1);
    assert p.tasks[0 := Some(ThreadRes([1], [0], [], []))] == [Some(ThreadRes([1], [0], [], [])), Some(t1)];
    OneWaiterGranted();
    r0 := p.MutexLockCorrected(0, 1);
    assert p.tasks == [Some(ThreadRes([1], [0], [], [])), Some(t1)];
    SoleRequest([1], 0);
    assert p.tasks[1 := Some(ThreadRes([0], [1], [], []))]
        == [Some(ThreadRes([1], [0], [], [])), Some(ThreadRes([0], [1], [], []))];
    CrossedRequestsRefused();
    r1 := p.MutexLockCorrected(1, 0);
    ledgers := p.tasks;
  }

  /** From `TwoThreads`, thread 0 takes mutex 0; then detection is turned on. */
  method OneHolder() returns (p: Process)
    ensures fresh(p) && p.Valid()
    ensures p.tasks == [Some(ThreadRes([], [0], [], [])), Some(ThreadRes([], [], [], []))]
    ensures |p.mutexList| == 2 && p.mutexList[0].Some?
    ensures p.needDeadlock == 1
  {
    p := TwoThreads();
    SoleRequest([], 0);
    var a := p.MutexLock(0, 0);
    var _ := p.EnableDeadlockDetect(1);
  }

  /** `OneHolder` reached with the corrected lock, taken at once. */
  method OneHolderCorrected() returns (p: Process)
    ensures fresh(p) && p.Valid()
    ensures p.tasks == [Some(ThreadRes([], [0], [], [])), Some(ThreadRes([], [], [], []))]
    ensures |p.mutexList| == 2 && p.mutexList[0].Some?
    ensures p.needDeadlock == 1
  {
    p := TwoThreads();
    SoleRequest([], 0);
    var a := p.MutexLockCorrected(0, 0);
    assert p.tasks == [Some(ThreadRes([0], [], [], [])), Some(ThreadRes([], [], [], []))];
    p.MutexLockAcquired(0, 0);
    var _ := p.EnableDeadlockDetect(1);
  }

  /**
   * From `OneHolder`, thread 1 locks mutex 0 (and would wait in
   * `mutex.lock()`), then thread 0 locks mutex 0 again.  `MutexLock` grants
   * both: thread 0 would then wait for a mutex it holds itself.
   */
  method RelockWithWaiter() returns (waiter: int, relock: int, ledgers: seq<Option<ThreadRes>>)
    ensures waiter == 0 && relock == 0
    ensures ledgers == [Some(ThreadRes([], [0, 0], [], [])), Some(ThreadRes([], [0], [], []))]
  {
    var p := OneHolder();
    var t0 := ThreadRes([], [0], [], []);
    SoleRequest([], 0);
    assert p.tasks[1 := Some(ThreadRes([0], [], [], []))] == [Some(t0), Some(ThreadRes([0], [], [], []))];
    WaiterGranted();
    waiter := p.MutexLock(1, 0);
    assert p.tasks == [Some(t0), Some(ThreadRes([], [0], [], []))];
    SoleRequest([0], 0);
    assert p.tasks[0 := Some(ThreadRes([0], [0], [], []))]
        == [Some(ThreadRes([0], [0], [], [])), Some(ThreadRes([], [0], [], []))];
    RelockAfterGrantGranted();
    relock := p.MutexLock(0, 0);
    assert [0] + [0] == [0, 0];
    ledgers := p.tasks;
  }

  /**
   * The same sequence with the corrected lock: thread 1's request stays
   * pending while it waits, so thread 0's re-lock is refused.
   */
  method RelockWithWaiterCorrected() returns (waiter: int, relock: int, ledgers: seq<Option<ThreadRes>>)
    ensures waiter == 0 && relock == WOULD_DEADLOCK
    ensures ledgers == [Some(ThreadRes([], [0], [], [])), Some(ThreadRes([0], [], [], []))]
  {
    var p := OneHolderCorrected();
    var t0 := ThreadRes([], [0], [], []);
    SoleRequest([], 0);
    assert p.tasks[1 := Some(ThreadRes([0], [], [], []))] == [Some(t0), Some(ThreadRes([0], [], [], []))];
    WaiterGranted();
    waiter := p.MutexLockCorrected(1, 0);
    assert p.tasks == [Some(t0), Some(ThreadRes([0], [], [], []))];
    SoleRequest([0], 0);
    assert p.tasks[0 := Some(ThreadRes([0], [0], [], []))]
        == [Some(ThreadRes([0], [0], [], [])), Some(ThreadRes([0], [], [], []))];
    RelockPendingRefused();
    relock := p.MutexLockCorrected(0, 0);
    ledgers := p.tasks;
  }
}
