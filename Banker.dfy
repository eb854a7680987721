/**
 * The deadlock detector of os/src/syscall/sync.rs: `check`, the Banker's
 * safety algorithm, run over a snapshot made of a `work` vector and the
 * `need` and `allocation` matrices (one row per task, one column per
 * resource).
 *
 * `Run` specifies the outer loop of `check` round by round; `Check` is the
 * imperative algorithm, proved to end in the state `Run` describes.  The
 * lemmas at the end prove that `check` answers "safe" exactly when some
 * ordering of all tasks lets each one, in turn, have its need met from the
 * initial work plus what the tasks before it release.
 */
module Banker {

  /** need and allocation are n-by-m matrices */
  ghost predicate Shaped(m: nat, need: seq<seq<int>>, allocation: seq<seq<int>>) {
    && |need| == |allocation|
    && (forall i | 0 <= i < |need| :: |need[i]| == m)
    && (forall i | 0 <= i < |allocation| :: |allocation[i]| == m)
  }

  /** Every allocation entry is a count, never negative. */
  ghost predicate NonNegative(allocation: seq<seq<int>>) {
    forall i, j | 0 <= i < |allocation| && 0 <= j < |allocation[i]| :: 0 <= allocation[i][j]
  }

  /** `need[i][j] <= work[j]` for every resource j */
  predicate Fits(row: seq<int>, work: seq<int>)
    requires |row| == |work|
  {
    forall j | 0 <= j < |work| :: row[j] <= work[j]
  }

  function AddRow(work: seq<int>, row: seq<int>): (r: seq<int>)
    requires |row| == |work|
    ensures |r| == |work|
  {
    seq(|work|, j requires 0 <= j < |work| => work[j] + row[j])
  }

  function Falses(n: nat): (f: seq<bool>)
    ensures |f| == n
  {
    seq(n, _ => false)
  }

  /** The number of tasks not yet finished. */
  function Unfinished(finish: seq<bool>): (c: nat)
    ensures c <= |finish|
  {
    if finish == [] then 0 else (if finish[0] then 0 else 1) + Unfinished(finish[1..])
  }

  lemma {:induction false} FinishOneDecreases(finish: seq<bool>, i: nat)
    requires i < |finish| && !finish[i]
    ensures Unfinished(finish[i := true]) == Unfinished(finish) - 1
  {
    if i == 0 {
      assert finish[i := true][1..] == finish[1..];
    } else {
      assert finish[i := true][1..] == finish[1..][i - 1 := true];
      FinishOneDecreases(finish[1..], i - 1);
    }
  }

  lemma {:induction false} UnfinishedOfFalses(n: nat)
    ensures Unfinished(Falses(n)) == n
  {
    if n > 0 {
      assert Falses(n)[1..] == Falses(n - 1);
      UnfinishedOfFalses(n - 1);
    }
  }

  lemma {:induction false} AllFinishedNoneLeft(finish: seq<bool>)
    requires forall i | 0 <= i < |finish| :: finish[i]
    ensures Unfinished(finish) == 0
  {
    if finish != [] {
      AllFinishedNoneLeft(finish[1..]);
    }
  }

  /**
   * The index the inner scan of `check` stops at, starting from i: the lowest
   * unfinished task whose need fits `work`, or |finish| when there is none.
   */
  function FirstRunnable(need: seq<seq<int>>, work: seq<int>, finish: seq<bool>, i: nat): (k: nat)
    requires |need| == |finish| && i <= |finish|
    requires forall r | 0 <= r < |need| :: |need[r]| == |work|
    ensures i <= k <= |finish|
    ensures k < |finish| ==> !finish[k] && Fits(need[k], work)
    ensures forall l | i <= l < k :: finish[l] || !Fits(need[l], work)
    decreases |finish| - i
  {
    if i == |finish| then i
    else if !finish[i] && Fits(need[i], work) then i
    else FirstRunnable(need, work, finish, i + 1)
  }

  /** The state of `check` when its outer loop exits. */
  datatype Outcome = Outcome(finish: seq<bool>, work: seq<int>, order: seq<nat>)

  /**
   * The rounds of `check`'s outer loop from the given state: each round
   * finishes the first runnable task and releases its allocation into
   * `work`; `order` collects the finished tasks (the source's
   * `safe_sequence`).
   */
  ghost function Run(need: seq<seq<int>>, allocation: seq<seq<int>>, work: seq<int>,
                     finish: seq<bool>, order: seq<nat>): (o: Outcome)
    requires Shaped(|work|, need, allocation) && |finish| == |need|
    ensures |o.finish| == |finish| && |o.work| == |work|
    decreases Unfinished(finish)
  {
    var k := FirstRunnable(need, work, finish, 0);
    if k == |finish| then Outcome(finish, work, order)
    else
      FinishOneDecreases(finish, k);
      Run(need, allocation, AddRow(work, allocation[k]), finish[k := true], order + [k])
  }

  /** The answer of `check` on a fresh `finish` vector. */
  ghost predicate BankerSafe(work: seq<int>, need: seq<seq<int>>, allocation: seq<seq<int>>)
    requires Shaped(|work|, need, allocation)
  {
    var o := Run(need, allocation, work, Falses(|need|), []);
    forall i | 0 <= i < |need| :: o.finish[i]
  }

  /** One round of `check` that finds a runnable task k. */
  lemma RunStep(need: seq<seq<int>>, allocation: seq<seq<int>>, work: seq<int>, finish: seq<bool>, order: seq<nat>)
    requires Shaped(|work|, need, allocation) && |finish| == |need|
    requires FirstRunnable(need, work, finish, 0) < |finish|
    ensures var k := FirstRunnable(need, work, finish, 0);
            Run(need, allocation, work, finish, order)
              == Run(need, allocation, AddRow(work, allocation[k]), finish[k := true], order + [k])
  {
  }

  /** The round of `check` that finds no runnable task ends the loop. */
  lemma RunStop(need: seq<seq<int>>, allocation: seq<seq<int>>, work: seq<int>, finish: seq<bool>, order: seq<nat>)
    requires Shaped(|work|, need, allocation) && |finish| == |need|
    requires FirstRunnable(need, work, finish, 0) == |finish|
    ensures Run(need, allocation, work, finish, order) == Outcome(finish, work, order)
  {
  }

  /** `for j in 0..m { work[j] += allocation[i][j] }` */
  method AddAllocation(work: array<int>, row: seq<int>)
    requires |row| == work.Length
    modifies work
    ensures work[..] == AddRow(old(work[..]), row)
  {
    for j := 0 to work.Length
      invariant forall l | 0 <= l < j :: work[l] == old(work[l]) + row[l]
      invariant forall l | j <= l < work.Length :: work[l] == old(work[l])
    {
      work[j] := work[j] + row[j];
    }
  }

  /** `check` itself: mutates the caller's `work` and reports safety. */
  method Check(n: nat, m: nat, work: array<int>, need: seq<seq<int>>, allocation: seq<seq<int>>)
    returns (safe: bool)
    requires work.Length == m && |need| == n && Shaped(m, need, allocation)
    modifies work
    ensures safe == BankerSafe(old(work[..]), need, allocation)
    ensures work[..] == Run(need, allocation, old(work[..]), Falses(n), []).work
  {
    ghost var goal := Run(need, allocation, work[..], Falses(n), []);
    var finish := new bool[n](_ => false);
    assert finish[..] == Falses(n);
    var order: seq<nat> := [];
    while true
      invariant finish.Length == n && work.Length == m
      invariant Run(need, allocation, work[..], finish[..], order) == goal
      decreases Unfinished(finish[..])
    {
      ghost var before := work[..];
      ghost var finishedBefore := finish[..];
      ghost var k := FirstRunnable(need, before, finishedBefore, 0);
      var found := false;  // the source's `allocated` flag
      var i := 0;
      while i < n
        invariant 0 <= i <= n && !found
        invariant work[..] == before && finish[..] == finishedBefore
        invariant FirstRunnable(need, before, finishedBefore, i) == k
      {
        if finish[i] {
          i := i + 1;
          continue;
        }
        if forall j | 0 <= j < m :: need[i][j] <= work[j] {
          assert Fits(need[i], before);
          found := true;
          break;
        }
        i := i + 1;
      }
      if !found {
        RunStop(need, allocation, before, finishedBefore, order);
        break;
      }
      assert i == k;
      AddAllocation(work, allocation[i]);
      finish[i] := true;
      assert finish[..] == finishedBefore[i := true];
      FinishOneDecreases(finishedBefore, i);
      RunStep(need, allocation, before, finishedBefore, order);
      order := order + [i];
    }
    safe := forall i | 0 <= i < n :: finish[i];
  }

  // ---------------------------------------------------------------------
  // What `check` computes

  /** Column j of the sum of the allocation rows of the tasks in s. */
  function ColSum(allocation: seq<seq<int>>, s: seq<nat>, j: nat): int
    requires forall k | 0 <= k < |s| :: s[k] < |allocation| && j < |allocation[s[k]]|
  {
    if s == [] then 0 else ColSum(allocation, s[..|s| - 1], j) + allocation[s[|s| - 1]][j]
  }

  ghost predicate Distinct(s: seq<nat>) {
    forall a, b | 0 <= a < b < |s| :: s[a] != s[b]
  }

  ghost predicate InRange(s: seq<nat>, n: nat) {
    forall k | 0 <= k < |s| :: s[k] < n
  }

  /**
   * Each task of `order`, when its turn comes, needs no more than the
   * initial work plus the allocations released by the tasks before it.
   */
  ghost predicate IsSafeSequence(work: seq<int>, need: seq<seq<int>>, allocation: seq<seq<int>>, order: seq<nat>)
    requires Shaped(|work|, need, allocation)
  {
    && InRange(order, |need|)
    && forall k, j | 0 <= k < |order| && 0 <= j < |work| ::
         need[order[k]][j] <= work[j] + ColSum(allocation, order[..k], j)
  }

  /** order lists every one of the n tasks exactly once */
  ghost predicate IsOrdering(order: seq<nat>, n: nat) {
    |order| == n && InRange(order, n) && Distinct(order) && forall i | 0 <= i < n :: i in order
  }

  /** The textbook notion of a safe state. */
  ghost predicate SafeOrderingExists(work: seq<int>, need: seq<seq<int>>, allocation: seq<seq<int>>)
    requires Shaped(|work|, need, allocation)
  {
    exists order :: IsOrdering(order, |need|) && IsSafeSequence(work, need, allocation, order)
  }

  /** What holds of every intermediate state of `check`, started from w0. */
  ghost predicate Progress(w0: seq<int>, need: seq<seq<int>>, allocation: seq<seq<int>>,
                           work: seq<int>, finish: seq<bool>, order: seq<nat>)
    requires Shaped(|w0|, need, allocation)
  {
    && |work| == |w0| && |finish| == |need|
    && |order| + Unfinished(finish) == |need|
    && InRange(order, |need|) && Distinct(order)
    && (forall k | 0 <= k < |order| :: finish[order[k]])
    && (forall i | 0 <= i < |need| && finish[i] :: i in order)
    && (forall j | 0 <= j < |w0| :: work[j] == w0[j] + ColSum(allocation, order, j))
    && IsSafeSequence(w0, need, allocation, order)
  }

  lemma ProgressStep(w0: seq<int>, need: seq<seq<int>>, allocation: seq<seq<int>>,
                     work: seq<int>, finish: seq<bool>, order: seq<nat>, k: nat)
    requires Shaped(|w0|, need, allocation)
    requires Progress(w0, need, allocation, work, finish, order)
    requires k < |finish| && !finish[k] && Fits(need[k], work)
    ensures Progress(w0, need, allocation, AddRow(work, allocation[k]), finish[k := true], order + [k])
  {
    var order' := order + [k];
    FinishOneDecreases(finish, k);
    assert k !in order;
    forall j | 0 <= j < |w0|
      ensures AddRow(work, allocation[k])[j] == w0[j] + ColSum(allocation, order', j)
    {
      assert order'[..|order'| - 1] == order;
    }
    forall p, j | 0 <= p < |order'| && 0 <= j < |w0|
      ensures need[order'[p]][j] <= w0[j] + ColSum(allocation, order'[..p], j)
    {
      if p < |order| {
        assert order'[..p] == order[..p];
      } else {
        assert order'[..p] == order;
      }
    }
    forall i | 0 <= i < |need| && finish[k := true][i]
      ensures i in order'
    {
      if i != k {
        assert i in order;
      }
    }
  }

  /** Running `check` to the end keeps Progress, and no unfinished task fits the final work. */
  lemma {:induction false} RunKeepsProgress(w0: seq<int>, need: seq<seq<int>>, allocation: seq<seq<int>>,
                                            work: seq<int>, finish: seq<bool>, order: seq<nat>)
    requires Shaped(|w0|, need, allocation)
    requires Progress(w0, need, allocation, work, finish, order)
    ensures var o := Run(need, allocation, work, finish, order);
            && Progress(w0, need, allocation, o.work, o.finish, o.order)
            && forall i | 0 <= i < |need| :: o.finish[i] || !Fits(need[i], o.work)
    decreases Unfinished(finish)
  {
    var k := FirstRunnable(need, work, finish, 0);
    if k < |finish| {
      ProgressStep(w0, need, allocation, work, finish, order, k);
      FinishOneDecreases(finish, k);
      RunKeepsProgress(w0, need, allocation, AddRow(work, allocation[k]), finish[k := true], order + [k]);
    }
  }

  lemma InitialProgress(w0: seq<int>, need: seq<seq<int>>, allocation: seq<seq<int>>)
    requires Shaped(|w0|, need, allocation)
    ensures Progress(w0, need, allocation, w0, Falses(|need|), [])
  {
    UnfinishedOfFalses(|need|);
  }

  /**
   * On exit the work vector is the initial one plus the allocation rows of
   * exactly the finished tasks, and each task is finished iff it is in the
   * safe sequence, which lists no task twice.
   */
  lemma FinalWork(work: seq<int>, need: seq<seq<int>>, allocation: seq<seq<int>>)
    requires Shaped(|work|, need, allocation)
    ensures var o := Run(need, allocation, work, Falses(|need|), []);
            && Distinct(o.order) && InRange(o.order, |need|)
            && (forall i | 0 <= i < |need| :: o.finish[i] <==> i in o.order)
            && forall j | 0 <= j < |work| :: o.work[j] == work[j] + ColSum(allocation, o.order, j)
  {
    InitialProgress(work, need, allocation);
    RunKeepsProgress(work, need, allocation, work, Falses(|need|), []);
  }

  /** A "safe" answer comes with a safe ordering of all tasks: the order `check` finished them in. */
  lemma BankerSound(work: seq<int>, need: seq<seq<int>>, allocation: seq<seq<int>>)
    requires Shaped(|work|, need, allocation)
    requires BankerSafe(work, need, allocation)
    ensures var o := Run(need, allocation, work, Falses(|need|), []);
            IsOrdering(o.order, |need|) && IsSafeSequence(work, need, allocation, o.order)
  {
    var o := Run(need, allocation, work, Falses(|need|), []);
    InitialProgress(work, need, allocation);
    RunKeepsProgress(work, need, allocation, work, Falses(|need|), []);
    AllFinishedNoneLeft(o.finish);
  }

  lemma {:induction false} ColSumNonNegative(allocation: seq<seq<int>>, s: seq<nat>, j: nat)
    requires NonNegative(allocation)
    requires forall k | 0 <= k < |s| :: s[k] < |allocation| && j < |allocation[s[k]]|
    ensures 0 <= ColSum(allocation, s, j)
  {
    if s != [] {
      ColSumNonNegative(allocation, s[..|s| - 1], j);
    }
  }

  lemma {:induction false} ColSumConcat(allocation: seq<seq<int>>, u: seq<nat>, v: seq<nat>, j: nat)
    requires forall k | 0 <= k < |u| :: u[k] < |allocation| && j < |allocation[u[k]]|
    requires forall k | 0 <= k < |v| :: v[k] < |allocation| && j < |allocation[v[k]]|
    ensures ColSum(allocation, u + v, j) == ColSum(allocation, u, j) + ColSum(allocation, v, j)
  {
    if v == [] {
      assert u + v == u;
    } else {
      assert (u + v)[..|u + v| - 1] == u + v[..|v| - 1];
      ColSumConcat(allocation, u, v[..|v| - 1], j);
    }
  }

  lemma DeleteAt(b: seq<nat>, p: nat)
    requires p < |b|
    ensures var b' := b[..p] + b[p + 1..];
            && |b'| == |b| - 1
            && (forall r | 0 <= r < p :: b'[r] == b[r])
            && (forall r | p <= r < |b'| :: b'[r] == b[r + 1])
  {
  }

  /** Deleting b[p] from a list without repeats keeps every other element and no repeats. */
  lemma DeleteKeepsOthers(a: seq<nat>, b: seq<nat>, p: nat)
    requires p < |b| && Distinct(b)
    requires forall y | y in a :: y in b && y != b[p]
    ensures forall y | y in a :: y in b[..p] + b[p + 1..]
    ensures Distinct(b[..p] + b[p + 1..])
  {
    var b' := b[..p] + b[p + 1..];
    DeleteAt(b, p);
    forall y | y in a ensures y in b' {
      var r :| 0 <= r < |b| && b[r] == y;
      assert b'[if r < p then r else r - 1] == y;
    }
    forall c, d | 0 <= c < d < |b'| ensures b'[c] != b'[d] {
      assert b'[c] == b[if c < p then c else c + 1];
      assert b'[d] == b[if d < p then d else d + 1];
    }
  }

  lemma ColSumDelete(allocation: seq<seq<int>>, b: seq<nat>, p: nat, j: nat)
    requires p < |b|
    requires forall k | 0 <= k < |b| :: b[k] < |allocation| && j < |allocation[b[k]]|
    ensures ColSum(allocation, b, j) == ColSum(allocation, b[..p] + b[p + 1..], j) + allocation[b[p]][j]
  {
    assert b == (b[..p] + [b[p]]) + b[p + 1..];
    ColSumConcat(allocation, b[..p] + [b[p]], b[p + 1..], j);
    ColSumConcat(allocation, b[..p], b[p + 1..], j);
    assert (b[..p] + [b[p]])[..p] == b[..p];
  }

  /** With no negative allocations, the tasks of a subset release no more than the whole set. */
  lemma {:induction false} ColSumSubset(allocation: seq<seq<int>>, a: seq<nat>, b: seq<nat>, j: nat)
    requires NonNegative(allocation)
    requires forall k | 0 <= k < |b| :: b[k] < |allocation| && j < |allocation[b[k]]|
    requires Distinct(a) && Distinct(b)
    requires forall x | x in a :: x in b
    ensures forall k | 0 <= k < |a| :: a[k] < |allocation| && j < |allocation[a[k]]|
    ensures ColSum(allocation, a, j) <= ColSum(allocation, b, j)
    decreases |a|
  {
    if a == [] {
      ColSumNonNegative(allocation, b, j);
    } else {
      var x := a[|a| - 1];
      var a' := a[..|a| - 1];
      assert x in b;
      var p :| 0 <= p < |b| && b[p] == x;
      var b' := b[..p] + b[p + 1..];
      ColSumDelete(allocation, b, p, j);
      forall y | y in a' ensures y in b && y != b[p] {
        var q :| 0 <= q < |a'| && a'[q] == y;
        assert a[q] == y && q < |a| - 1;
        assert y != x && y in a;
      }
      DeleteKeepsOthers(a', b, p);
      ColSumSubset(allocation, a', b', j);
    }
  }

  /**
   * If every task before position k of a safe sequence is finished, the task
   * at position k fits the work `check` ends with.
   */
  lemma SafePrefixFits(work: seq<int>, need: seq<seq<int>>, allocation: seq<seq<int>>,
                       order: seq<nat>, k: nat, o: Outcome)
    requires Shaped(|work|, need, allocation) && NonNegative(allocation)
    requires Distinct(order) && IsSafeSequence(work, need, allocation, order) && k < |order|
    requires Progress(work, need, allocation, o.work, o.finish, o.order)
    requires forall l | 0 <= l < k :: o.finish[order[l]]
    ensures Fits(need[order[k]], o.work)
  {
    forall x | x in order[..k] ensures x in o.order {
      var l :| 0 <= l < k && order[l] == x;
    }
    forall j | 0 <= j < |work| ensures need[order[k]][j] <= o.work[j] {
      ColSumSubset(allocation, order[..k], o.order, j);
    }
  }

  /** The first position of order whose task is unfinished, given that task i is. */
  lemma FirstUnfinished(order: seq<nat>, finish: seq<bool>, i: nat) returns (k: nat)
    requires InRange(order, |finish|) && i < |finish| && !finish[i] && i in order
    ensures k < |order| && !finish[order[k]]
    ensures forall l | 0 <= l < k :: finish[order[l]]
  {
    var p :| 0 <= p < |order| && order[p] == i;
    k := 0;
    while finish[order[k]]
      invariant 0 <= k <= p
      invariant forall l | 0 <= l < k :: finish[order[l]]
      decreases p - k
    {
      k := k + 1;
    }
  }

  /**
   * Completeness: when allocations are counts, a safe ordering of all tasks
   * means `check` finishes every task.
   */
  lemma BankerComplete(work: seq<int>, need: seq<seq<int>>, allocation: seq<seq<int>>, order: seq<nat>)
    requires Shaped(|work|, need, allocation) && NonNegative(allocation)
    requires IsOrdering(order, |need|) && IsSafeSequence(work, need, allocation, order)
    ensures BankerSafe(work, need, allocation)
  {
    var n := |need|;
    var o := Run(need, allocation, work, Falses(n), []);
    InitialProgress(work, need, allocation);
    RunKeepsProgress(work, need, allocation, work, Falses(n), []);
    if i :| 0 <= i < n && !o.finish[i] {
      // the first task of the safe ordering that check left unfinished
      assert i in order;
      var k := FirstUnfinished(order, o.finish, i);
      SafePrefixFits(work, need, allocation, order, k, o);
      assert false;
    }
  }

  /**
   * `check` says "safe" exactly when the state is safe in the textbook
   * sense, for any snapshot whose allocations are counts.
   */
  lemma BankerCorrect(work: seq<int>, need: seq<seq<int>>, allocation: seq<seq<int>>)
    requires Shaped(|work|, need, allocation) && NonNegative(allocation)
    ensures BankerSafe(work, need, allocation) <==> SafeOrderingExists(work, need, allocation)
  {
    if BankerSafe(work, need, allocation) {
      BankerSound(work, need, allocation);
    }
    if SafeOrderingExists(work, need, allocation) {
      var order :| IsOrdering(order, |need|) && IsSafeSequence(work, need, allocation, order);
      BankerComplete(work, need, allocation, order);
    }
  }
}
