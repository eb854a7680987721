/**
 * The ready queue of os/src/task/manager.rs and its stride scheduler.
 *
 * The queue holds shared references to task control blocks; `fetch` picks
 * the first Ready task of least stride, advances that task's stride by
 * `BIG_STRIDE / priority` in place, and takes it out of the queue.
 */
module Manager {
  import opened Wrappers

  /** `BIGSTRIDE` (its value lives in config.rs, which is not part of this model) */
  const BIG_STRIDE: nat := 0x10_0000

  /** the initial `prio` of the scan: the largest `usize` */
  const USIZE_MAX: nat := 0xFFFF_FFFF_FFFF_FFFF

  datatype TaskStatus = Ready | Running | Blocked | Zombie

  /** The scheduling part of a task control block. */
  class Tcb {
    var status: TaskStatus
    var stride: nat
    var priority: nat

    constructor (status: TaskStatus, stride: nat, priority: nat)
      ensures this.status == status && this.stride == stride && this.priority == priority
    {
      this.status := status;
      this.stride := stride;
      this.priority := priority;
    }
  }

  /** What the scan looks at in each queued task. */
  datatype Key = Key(ready: bool, stride: nat)

  function Keys(q: seq<Tcb>): (ks: seq<Key>)
    reads q
    ensures |ks| == |q|
    ensures forall i | 0 <= i < |q| :: ks[i] == Key(q[i].status == Ready, q[i].stride)
  {
    seq(|q|, i reads q requires 0 <= i < |q| => Key(q[i].status == Ready, q[i].stride))
  }

  /** some Ready task has a stride the scan can see (below the initial `prio`) */
  predicate SomeEligible(ks: seq<Key>) {
    exists i | 0 <= i < |ks| :: ks[i].ready && ks[i].stride < USIZE_MAX
  }

  /**
   * The index `fetch` takes: the first Ready task whose stride is least
   * among the Ready tasks; if no Ready task is eligible, index 0.
   */
  predicate IsStrideChoice(ks: seq<Key>, t: nat) {
    && t < |ks|
    && (if SomeEligible(ks) then
          && ks[t].ready && ks[t].stride < USIZE_MAX
          && (forall i | 0 <= i < |ks| && ks[i].ready :: ks[t].stride <= ks[i].stride)
          && (forall i | 0 <= i < t && ks[i].ready :: ks[t].stride < ks[i].stride)
        else t == 0)
  }

  /** At most one index satisfies the choice: `fetch` is deterministic. */
  lemma StrideChoiceUnique(ks: seq<Key>, t: nat, u: nat)
    requires IsStrideChoice(ks, t) && IsStrideChoice(ks, u)
    ensures t == u
  {
  }

  /** A chosen Ready task is never passed over for a Ready task of smaller stride. */
  lemma StrideChoiceIsMinimal(ks: seq<Key>, t: nat, i: nat)
    requires IsStrideChoice(ks, t) && i < |ks| && ks[i].ready && ks[i].stride < USIZE_MAX
    ensures ks[t].ready && ks[t].stride <= ks[i].stride
  {
    assert SomeEligible(ks);
  }

  /**
   * The scan of `fetch`: keep the least stride seen so far among Ready
   * tasks (strictly less replaces, so the earliest wins ties).
   */
  method StrideScan(q: seq<Tcb>) returns (target: nat)
    requires q != []
    ensures IsStrideChoice(Keys(q), target)
  {
    ghost var ks := Keys(q);
    var prio := USIZE_MAX;
    target := 0;
    var index := 0;
    while index < |q|
      invariant 0 <= index <= |q| && target < |q|
      invariant prio <= USIZE_MAX
      invariant (exists i | 0 <= i < index :: ks[i].ready && ks[i].stride < USIZE_MAX)
                <==> prio < USIZE_MAX
      invariant prio < USIZE_MAX ==> target < index && ks[target].ready && ks[target].stride == prio
      invariant prio == USIZE_MAX ==> target == 0
      invariant forall i | 0 <= i < index && ks[i].ready :: prio <= ks[i].stride
      invariant forall i | 0 <= i < target && ks[i].ready :: prio < ks[i].stride
    {
      if q[index].status == Ready {
        if prio > q[index].stride {
          prio := q[index].stride;
          target := index;
        }
      }
      index := index + 1;
    }
  }

  class TaskManager {
    var readyQueue: seq<Tcb>

    /** `TaskManager::new`: an empty queue */
    constructor ()
      ensures readyQueue == []
    {
      readyQueue := [];
    }

    /** `add`: push at the back */
    method Add(task: Tcb)
      modifies this
      ensures readyQueue == old(readyQueue) + [task]
    {
      readyQueue := readyQueue + [task];
    }

    /**
     * `fetch`: on an empty queue, nothing; otherwise the chosen task,
     * whose stride grows by `BIG_STRIDE / priority`, leaves the queue and
     * the others keep their order and their strides.
     */
    method Fetch() returns (r: Option<Tcb>)
      requires forall k | 0 <= k < |readyQueue| :: readyQueue[k].priority >= 1
      modifies this, readyQueue
      ensures old(readyQueue) == [] ==> r == None && readyQueue == []
      ensures old(readyQueue) != [] ==>
                exists t: nat | IsStrideChoice(old(Keys(readyQueue)), t) ::
                  && r == Some(old(readyQueue[t]))
                  && readyQueue == old(readyQueue[..t] + readyQueue[t + 1..])
                  && r.value.stride == old(readyQueue[t].stride) + BIG_STRIDE / old(readyQueue[t].priority)
      ensures forall k | 0 <= k < |old(readyQueue)| ::
                old(readyQueue[k]).status == old(readyQueue[k].status)
                && old(readyQueue[k]).priority == old(readyQueue[k].priority)
      ensures forall k | 0 <= k < |old(readyQueue)| && (r.None? || old(readyQueue[k]) != r.value) ::
                old(readyQueue[k]).stride == old(readyQueue[k].stride)
    {
      if readyQueue == [] {
        return None;
      }
      var target := StrideScan(readyQueue);
      var task := readyQueue[target];
      task.stride := task.stride + BIG_STRIDE / task.priority;
      readyQueue := readyQueue[..target] + readyQueue[target + 1..];
      r := Some(task);
    }
  }
}
