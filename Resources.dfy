/**
 * The per-thread resource ledger of os/src/syscall/sync.rs and the snapshot
 * that `sys_mutex_lock` and `sys_semaphore_down` build from it for the
 * deadlock detector.
 *
 * Each thread keeps, per resource kind, the ids it has asked for and not
 * yet been granted (`apply_mutex_id`, `apply_sem_id`) and the ids it holds
 * (`allocated_mutex_id`, `allocated_sem_id`).  Ids may repeat in both lists.
 */
module Resources {
  import opened Wrappers
  import opened Banker

  datatype Kind = MutexRes | SemaphoreRes

  datatype ThreadRes = ThreadRes(applyMutex: seq<nat>, allocatedMutex: seq<nat>,
                                 applySem: seq<nat>, allocatedSem: seq<nat>)
  {
    function Apply(k: Kind): seq<nat> {
      if k == MutexRes then applyMutex else applySem
    }

    function Allocated(k: Kind): seq<nat> {
      if k == MutexRes then allocatedMutex else allocatedSem
    }

    function WithApply(k: Kind, s: seq<nat>): ThreadRes {
      if k == MutexRes then this.(applyMutex := s) else this.(applySem := s)
    }

    function WithAllocated(k: Kind, s: seq<nat>): ThreadRes {
      if k == MutexRes then this.(allocatedMutex := s) else this.(allocatedSem := s)
    }
  }

  function Other(k: Kind): Kind {
    if k == MutexRes then SemaphoreRes else MutexRes
  }

  // ---------------------------------------------------------------------
  // List operations

  /** `iter().position(|&x| x == id)`: the first index holding x */
  function Position(s: seq<nat>, x: nat): (p: nat)
    requires x in s
    ensures p < |s| && s[p] == x && x !in s[..p]
  {
    if s[0] == x then 0
    else
      var p := 1 + Position(s[1..], x);
      assert s[..p] == [s[0]] + s[1..][..p - 1];
      p
  }

  /** `if let Some(pos) = v.iter().position(..) { v.remove(pos); }`: drop the first x, if any */
  function RemoveFirst(s: seq<nat>, x: nat): (r: seq<nat>)
    ensures multiset(r) == multiset(s) - multiset{x}
    ensures x in s ==> |r| == |s| - 1
    ensures x !in s ==> r == s
    ensures forall y | y in r :: y in s
  {
    if x in s then
      var p := Position(s, x);
      assert s == s[..p] + [x] + s[p + 1..];
      s[..p] + s[p + 1..]
    else s
  }

  /** `apply_*.push(id)` at the start of an acquisition */
  function Request(t: ThreadRes, k: Kind, id: nat): ThreadRes {
    t.WithApply(k, t.Apply(k) + [id])
  }

  /** a granted acquisition: the id leaves `apply_*` and is pushed onto `allocated_*` */
  function Grant(t: ThreadRes, k: Kind, id: nat): ThreadRes {
    t.WithApply(k, RemoveFirst(t.Apply(k), id)).WithAllocated(k, t.Allocated(k) + [id])
  }

  /** a refused acquisition: the id leaves `apply_*` */
  function Withdraw(t: ThreadRes, k: Kind, id: nat): ThreadRes {
    t.WithApply(k, RemoveFirst(t.Apply(k), id))
  }

  /** unlock / up: one held occurrence of the id leaves `allocated_*` */
  function Release(t: ThreadRes, k: Kind, id: nat): ThreadRes {
    t.WithAllocated(k, RemoveFirst(t.Allocated(k), id))
  }

  /**
   * After a granted acquisition the requested lists hold what they held
   * before the call, the id is appended to the held list, and the lists of
   * the other kind are untouched.
   */
  lemma GrantMovesRequest(t: ThreadRes, k: Kind, id: nat)
    ensures var t' := Grant(Request(t, k, id), k, id);
            && multiset(t'.Apply(k)) == multiset(t.Apply(k))
            && t'.Allocated(k) == t.Allocated(k) + [id]
            && t'.Apply(Other(k)) == t.Apply(Other(k))
            && t'.Allocated(Other(k)) == t.Allocated(Other(k))
  {
    assert multiset(t.Apply(k) + [id]) == multiset(t.Apply(k)) + multiset{id};
  }

  /**
   * After a refused acquisition the requested list is, as a multiset, what
   * it was before the call, and nothing else changed.
   */
  lemma WithdrawRestores(t: ThreadRes, k: Kind, id: nat)
    ensures var t' := Withdraw(Request(t, k, id), k, id);
            && multiset(t'.Apply(k)) == multiset(t.Apply(k))
            && t'.Allocated(k) == t.Allocated(k)
            && t'.Apply(Other(k)) == t.Apply(Other(k))
            && t'.Allocated(Other(k)) == t.Allocated(Other(k))
  {
    var r := Request(t, k, id);
    assert r.Apply(k) == t.Apply(k) + [id];
    assert multiset(r.Apply(k)) == multiset(t.Apply(k)) + multiset{id};
    assert r.Allocated(k) == t.Allocated(k);
    assert r.Apply(Other(k)) == t.Apply(Other(k)) && r.Allocated(Other(k)) == t.Allocated(Other(k));
  }

  /** Release drops exactly one held occurrence, and is a no-op when the id is not held. */
  lemma ReleaseDropsOne(t: ThreadRes, k: Kind, id: nat)
    ensures var t' := Release(t, k, id);
            && multiset(t'.Allocated(k)) == multiset(t.Allocated(k)) - multiset{id}
            && (id in t.Allocated(k) ==> |t'.Allocated(k)| == |t.Allocated(k)| - 1)
            && (id !in t.Allocated(k) ==> t' == t)
            && t'.Apply(k) == t.Apply(k)
            && t'.Apply(Other(k)) == t.Apply(Other(k))
            && t'.Allocated(Other(k)) == t.Allocated(Other(k))
  {
  }

  // ---------------------------------------------------------------------
  // The snapshot

  /** every id a thread lists for kind k is below m */
  ghost predicate IdsBelow(t: ThreadRes, k: Kind, m: nat) {
    (forall id | id in t.Apply(k) :: id < m) && (forall id | id in t.Allocated(k) :: id < m)
  }

  /** The ledger updates never introduce an id other than the one acted on. */
  lemma UpdatesKeepIdsBelow(t: ThreadRes, k: Kind, id: nat, k2: Kind, m: nat)
    requires IdsBelow(t, k2, m)
    requires k == k2 ==> id < m
    ensures IdsBelow(Request(t, k, id), k2, m)
    ensures IdsBelow(Grant(Request(t, k, id), k, id), k2, m)
    ensures IdsBelow(Withdraw(Request(t, k, id), k, id), k2, m)
    ensures IdsBelow(Release(t, k, id), k2, m)
  {
    var r := Request(t, k, id);
    if k == k2 {
      assert r.Apply(k) == t.Apply(k) + [id] && r.Allocated(k) == t.Allocated(k);
      assert Grant(r, k, id).Apply(k) == RemoveFirst(r.Apply(k), id);
      assert Grant(r, k, id).Allocated(k) == t.Allocated(k) + [id];
      assert Withdraw(r, k, id).Apply(k) == RemoveFirst(r.Apply(k), id);
      assert Withdraw(r, k, id).Allocated(k) == t.Allocated(k);
      assert Release(t, k, id).Apply(k) == t.Apply(k);
      assert Release(t, k, id).Allocated(k) == RemoveFirst(t.Allocated(k), id);
    } else {
      assert k2 == Other(k);
      assert r.Apply(k2) == t.Apply(k2) && r.Allocated(k2) == t.Allocated(k2);
      assert Grant(r, k, id).Apply(k2) == t.Apply(k2) && Grant(r, k, id).Allocated(k2) == t.Allocated(k2);
      assert Withdraw(r, k, id).Apply(k2) == t.Apply(k2) && Withdraw(r, k, id).Allocated(k2) == t.Allocated(k2);
      assert Release(t, k, id).Apply(k2) == t.Apply(k2) && Release(t, k, id).Allocated(k2) == t.Allocated(k2);
    }
  }

  /** Granting an id below the table length keeps every listed id below it. */
  lemma GrantKeepsIdsBelow(t: ThreadRes, k: Kind, id: nat, k2: Kind, m: nat)
    requires IdsBelow(t, k2, m)
    requires k == k2 ==> id < m
    ensures IdsBelow(Grant(t, k, id), k2, m)
  {
    if k == k2 {
      assert Grant(t, k, id).Apply(k) == RemoveFirst(t.Apply(k), id);
      assert Grant(t, k, id).Allocated(k) == t.Allocated(k) + [id];
    } else {
      assert k2 == Other(k);
      assert Grant(t, k, id).Apply(k2) == t.Apply(k2) && Grant(t, k, id).Allocated(k2) == t.Allocated(k2);
    }
  }

  /** Replacing one thread's ledger by one whose ids are in range keeps every id in range. */
  lemma ReplaceKeepsAllIdsBelow(tasks: seq<Option<ThreadRes>>, cur: nat, t: ThreadRes, k: Kind, m: nat)
    requires cur < |tasks| && AllIdsBelow(tasks, k, m) && IdsBelow(t, k, m)
    ensures AllIdsBelow(tasks[cur := Some(t)], k, m)
  {
  }

  ghost predicate AllIdsBelow(tasks: seq<Option<ThreadRes>>, k: Kind, m: nat) {
    forall i | 0 <= i < |tasks| && tasks[i].Some? :: IdsBelow(tasks[i].value, k, m)
  }

  /** A snapshot for the detector (sync.rs builds it in local vectors). */
  datatype Snapshot = Snapshot(work: seq<int>, need: seq<seq<int>>, allocation: seq<seq<int>>)

  function Zeros(m: nat): (z: seq<int>)
    ensures |z| == m
  {
    seq(m, _ => 0)
  }

  /** occurrences of j among the ids a thread slot holds (an empty slot holds none) */
  function Held(t: Option<ThreadRes>, k: Kind, j: nat): nat {
    if t.Some? then multiset(t.value.Allocated(k))[j] else 0
  }

  /** occurrences of j among the ids every thread of the process holds */
  function TotalHeld(tasks: seq<Option<ThreadRes>>, k: Kind, j: nat): nat {
    if tasks == [] then 0
    else TotalHeld(tasks[..|tasks| - 1], k, j) + Held(tasks[|tasks| - 1], k, j)
  }

  lemma TotalHeldExtend(tasks: seq<Option<ThreadRes>>, k: Kind, i: nat, j: nat)
    requires i < |tasks|
    ensures TotalHeld(tasks[..i + 1], k, j) == TotalHeld(tasks[..i], k, j) + Held(tasks[i], k, j)
  {
    assert tasks[..i + 1][..i] == tasks[..i];
  }

  /** need row of one thread slot: how often each id occurs among its requests */
  function NeedRow(t: Option<ThreadRes>, k: Kind, m: nat): (row: seq<int>)
    ensures |row| == m
  {
    seq(m, j => if t.Some? then multiset(t.value.Apply(k))[j] else 0)
  }

  /** mutex allocation row: 1 for every id the thread holds, whatever its multiplicity */
  function MutexAllocRow(t: Option<ThreadRes>, m: nat): (row: seq<int>)
    ensures |row| == m
  {
    seq(m, j => if t.Some? && j in t.value.allocatedMutex then 1 else 0)
  }

  /** semaphore allocation row: how often each id occurs among the ids the thread holds */
  function SemAllocRow(t: Option<ThreadRes>, m: nat): (row: seq<int>)
    ensures |row| == m
  {
    seq(m, j requires 0 <= j < m => Held(t, SemaphoreRes, j))
  }

  /**
   * The mutex snapshot: a mutex is available (work 1) unless some thread
   * holds it; need counts requests, allocation marks holdings.
   */
  function MutexSnapshot(tasks: seq<Option<ThreadRes>>, m: nat): Snapshot {
    Snapshot(
      seq(m, j requires 0 <= j < m => if TotalHeld(tasks, MutexRes, j) == 0 then 1 else 0),
      seq(|tasks|, i requires 0 <= i < |tasks| => NeedRow(tasks[i], MutexRes, m)),
      seq(|tasks|, i requires 0 <= i < |tasks| => MutexAllocRow(tasks[i], m)))
  }

  /**
   * The semaphore snapshot: work is the count recorded at creation minus
   * every held occurrence; need and allocation count occurrences.
   */
  function SemaphoreSnapshot(tasks: seq<Option<ThreadRes>>, available: seq<nat>): Snapshot {
    Snapshot(
      seq(|available|, j requires 0 <= j < |available| => available[j] - TotalHeld(tasks, SemaphoreRes, j)),
      seq(|tasks|, i requires 0 <= i < |tasks| => NeedRow(tasks[i], SemaphoreRes, |available|)),
      seq(|tasks|, i requires 0 <= i < |tasks| => SemAllocRow(tasks[i], |available|)))
  }

  /** Both snapshots are n-by-m with count entries, so the detector's theorems apply. */
  lemma SnapshotsWellFormed(tasks: seq<Option<ThreadRes>>, m: nat, available: seq<nat>)
    ensures var s := MutexSnapshot(tasks, m);
            |s.work| == m && Shaped(m, s.need, s.allocation) && NonNegative(s.allocation)
    ensures var s := SemaphoreSnapshot(tasks, available);
            |s.work| == |available| && Shaped(|available|, s.need, s.allocation) && NonNegative(s.allocation)
  {
  }

  /** `for id in ids { row[*id] += 1 }`: count each id's occurrences into a need row */
  method CountInto(row: seq<int>, ids: seq<nat>) returns (row': seq<int>)
    requires forall id | id in ids :: id < |row|
    ensures |row'| == |row|
    ensures forall j | 0 <= j < |row| :: row'[j] == row[j] + multiset(ids)[j]
  {
    row' := row;
    for k := 0 to |ids|
      invariant |row'| == |row|
      invariant forall j | 0 <= j < |row| :: row'[j] == row[j] + multiset(ids[..k])[j]
    {
      var id := ids[k];
      assert id in ids;
      assert ids[..k + 1] == ids[..k] + [id];
      row' := row'[id := row'[id] + 1];
    }
    assert ids[..|ids|] == ids;
  }

  /** `for id in held { work[*id] = 0; allocation[i][*id] = 1; }` */
  method MarkHeldMutexes(work: seq<int>, row: seq<int>, held: seq<nat>) returns (work': seq<int>, row': seq<int>)
    requires |row| == |work| && forall id | id in held :: id < |work|
    ensures |work'| == |work| && |row'| == |row|
    ensures forall j | 0 <= j < |work| :: work'[j] == if j in held then 0 else work[j]
    ensures forall j | 0 <= j < |row| :: row'[j] == if j in held then 1 else row[j]
  {
    work', row' := work, row;
    for k := 0 to |held|
      invariant |work'| == |work| && |row'| == |row|
      invariant forall j | 0 <= j < |work| :: work'[j] == if j in held[..k] then 0 else work[j]
      invariant forall j | 0 <= j < |row| :: row'[j] == if j in held[..k] then 1 else row[j]
    {
      var id := held[k];
      assert id in held;
      assert held[..k + 1] == held[..k] + [id];
      work' := work'[id := 0];
      row' := row'[id := 1];
    }
    assert held[..|held|] == held;
  }

  /** `for id in held { work[*id] -= 1; allocation[i][*id] += 1; }` */
  method TakeHeldSemaphores(work: seq<int>, row: seq<int>, held: seq<nat>) returns (work': seq<int>, row': seq<int>)
    requires |row| == |work| && forall id | id in held :: id < |work|
    ensures |work'| == |work| && |row'| == |row|
    ensures forall j | 0 <= j < |work| :: work'[j] == work[j] - multiset(held)[j]
    ensures forall j | 0 <= j < |row| :: row'[j] == row[j] + multiset(held)[j]
  {
    work', row' := work, row;
    for k := 0 to |held|
      invariant |work'| == |work| && |row'| == |row|
      invariant forall j | 0 <= j < |work| :: work'[j] == work[j] - multiset(held[..k])[j]
      invariant forall j | 0 <= j < |row| :: row'[j] == row[j] + multiset(held[..k])[j]
    {
      var id := held[k];
      assert id in held;
      assert held[..k + 1] == held[..k] + [id];
      work' := work'[id := work'[id] - 1];
      row' := row'[id := row'[id] + 1];
    }
    assert held[..|held|] == held;
  }

  /** One pass of the mutex snapshot loop: the rows of thread slot t and its effect on work. */
  method AddMutexThread(t: Option<ThreadRes>, work: seq<int>) returns (work': seq<int>, needRow: seq<int>, allocRow: seq<int>)
    requires t.Some? ==> IdsBelow(t.value, MutexRes, |work|)
    ensures needRow == NeedRow(t, MutexRes, |work|) && allocRow == MutexAllocRow(t, |work|)
    ensures |work'| == |work|
    ensures forall j | 0 <= j < |work| :: work'[j] == if Held(t, MutexRes, j) == 0 then work[j] else 0
  {
    needRow, allocRow, work' := Zeros(|work|), Zeros(|work|), work;
    if t.Some? {
      var u := t.value;
      assert u.Apply(MutexRes) == u.applyMutex && u.Allocated(MutexRes) == u.allocatedMutex;
      needRow := CountInto(needRow, u.applyMutex);
      work', allocRow := MarkHeldMutexes(work, allocRow, u.allocatedMutex);
    }
  }

  /** The snapshot loop of `sys_mutex_lock`. */
  method BuildMutexSnapshot(tasks: seq<Option<ThreadRes>>, m: nat) returns (s: Snapshot)
    requires AllIdsBelow(tasks, MutexRes, m)
    ensures s == MutexSnapshot(tasks, m)
  {
    var n := |tasks|;
    var work: seq<int> := seq(m, _ => 1);
    var need: seq<seq<int>> := seq(n, _ => Zeros(m));
    var allocation: seq<seq<int>> := seq(n, _ => Zeros(m));
    var i := 0;
    while i < n
      invariant 0 <= i <= n
      invariant |work| == m && |need| == n && |allocation| == n
      invariant forall r | 0 <= r < i :: need[r] == NeedRow(tasks[r], MutexRes, m)
      invariant forall r | 0 <= r < i :: allocation[r] == MutexAllocRow(tasks[r], m)
      invariant forall j | 0 <= j < m :: work[j] == if TotalHeld(tasks[..i], MutexRes, j) == 0 then 1 else 0
    {
      var needRow, allocRow;
      work, needRow, allocRow := AddMutexThread(tasks[i], work);
      need := need[i := needRow];
      allocation := allocation[i := allocRow];
      forall j | 0 <= j < m ensures work[j] == if TotalHeld(tasks[..i + 1], MutexRes, j) == 0 then 1 else 0 {
        TotalHeldExtend(tasks, MutexRes, i, j);
      }
      i := i + 1;
    }
    assert tasks[..n] == tasks;
    s := Snapshot(work, need, allocation);
  }

  /** One pass of the semaphore snapshot loop: the rows of thread slot t and its effect on work. */
  method AddSemaphoreThread(t: Option<ThreadRes>, work: seq<int>) returns (work': seq<int>, needRow: seq<int>, allocRow: seq<int>)
    requires t.Some? ==> IdsBelow(t.value, SemaphoreRes, |work|)
    ensures needRow == NeedRow(t, SemaphoreRes, |work|) && allocRow == SemAllocRow(t, |work|)
    ensures |work'| == |work|
    ensures forall j | 0 <= j < |work| :: work'[j] == work[j] - Held(t, SemaphoreRes, j)
  {
    needRow, allocRow, work' := Zeros(|work|), Zeros(|work|), work;
    if t.Some? {
      var u := t.value;
      assert u.Apply(SemaphoreRes) == u.applySem && u.Allocated(SemaphoreRes) == u.allocatedSem;
      needRow := CountInto(needRow, u.applySem);
      work', allocRow := TakeHeldSemaphores(work, allocRow, u.allocatedSem);
    }
  }

  /** The snapshot loop of `sys_semaphore_down`; m is the length of the semaphore table. */
  method BuildSemaphoreSnapshot(tasks: seq<Option<ThreadRes>>, available: seq<nat>) returns (s: Snapshot)
    requires AllIdsBelow(tasks, SemaphoreRes, |available|)
    ensures s == SemaphoreSnapshot(tasks, available)
  {
    var n := |tasks|;
    var m := |available|;
    var work: seq<int> := seq(m, j requires 0 <= j < m => available[j] as int);
    var need: seq<seq<int>> := seq(n, _ => Zeros(m));
    var allocation: seq<seq<int>> := seq(n, _ => Zeros(m));
    var i := 0;
    while i < n
      invariant 0 <= i <= n
      invariant |work| == m && |need| == n && |allocation| == n
      invariant forall r | 0 <= r < i :: need[r] == NeedRow(tasks[r], SemaphoreRes, m)
      invariant forall r | 0 <= r < i :: allocation[r] == SemAllocRow(tasks[r], m)
      invariant forall j | 0 <= j < m :: work[j] == available[j] - TotalHeld(tasks[..i], SemaphoreRes, j)
    {
      var needRow, allocRow;
      work, needRow, allocRow := AddSemaphoreThread(tasks[i], work);
      need := need[i := needRow];
      allocation := allocation[i := allocRow];
      forall j | 0 <= j < m ensures work[j] == available[j] - TotalHeld(tasks[..i + 1], SemaphoreRes, j) {
        TotalHeldExtend(tasks, SemaphoreRes, i, j);
      }
      i := i + 1;
    }
    assert tasks[..n] == tasks;
    s := Snapshot(work, need, allocation);
  }
}
