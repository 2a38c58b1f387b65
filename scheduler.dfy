// The CPU scheduler: admission of threads to the ready list, choice of the
// next thread under the active policy, and the bookkeeping of a dispatch.
//
// One object holds the scheduler's own members (the ready list, alpha,
// quantum, the per-thread CPU counters) together with the kernel-wide values
// the scheduler reads and writes: the policy code, the tick counter, the
// running thread and the thread awaiting destruction. Destruction of a
// thread is recorded in the ghost set `destroyed`.
module Scheduling {
  import opened Threads
  import opened ReadyList
  import opened Policy

  class Scheduler {
    const readyThreadList: List
    const alpha: real
    var quantum: int
    const cpuCount: array<int>

    /** Policy code: 2 is shortest-job-first, codes above 6 select by priority. */
    const schedulerCode: int
    var totalTicks: int
    var currentThread: Thread?
    var threadToBeDestroyed: Thread?
    ghost var destroyed: set<Thread>

    ghost predicate Valid()
      reads this, readyThreadList, readyThreadList.Repr
    {
      readyThreadList.Valid() && alpha == Alpha
    }

    /** An empty ready list, alpha = 0.5, quantum = 0 and every CPU counter
        zero; the kernel-wide values are taken as given. */
    constructor (maxThreadCount: nat, code: int, ticks: int, running: Thread?)
      ensures Valid() && fresh(readyThreadList) && fresh(cpuCount)
      ensures readyThreadList.Items() == [] && readyThreadList.Repr == {}
      ensures alpha == 0.5 && quantum == 0
      ensures cpuCount.Length == maxThreadCount
      ensures forall i :: 0 <= i < maxThreadCount ==> cpuCount[i] == 0
      ensures schedulerCode == code && totalTicks == ticks && currentThread == running
      ensures threadToBeDestroyed == null && destroyed == {}
    {
      readyThreadList := new List();
      alpha := 0.5;
      quantum := 0;
      cpuCount := new int[maxThreadCount];
      schedulerCode := code;
      totalTicks := ticks;
      currentThread := running;
      threadToBeDestroyed := null;
      destroyed := {};
      new;
      var i := 0;
      while i < maxThreadCount
        modifies cpuCount
        invariant 0 <= i <= maxThreadCount
        invariant forall j :: 0 <= j < i ==> cpuCount[j] == 0
      {
        cpuCount[i] := 0;
        i := i + 1;
      }
    }

    /** Marks the thread READY, starts its wait period, and queues it: under
        SJF, with a previous burst on record, by the new burst prediction;
        otherwise at the tail. The ghost results name where the thread went
        and the key it was queued with. An admission by prediction keeps an
        ascending ready list ascending; a first-time thread under SJF goes
        to the tail with key 0, which can break that order
        (AppendZeroBreaksAscending). */
    method ThreadIsReadyToRun(thread: Thread) returns (ghost pos: nat, ghost key: real)
      requires Valid()
      modifies readyThreadList, readyThreadList.Repr
      modifies thread`status, thread`currWaitStart, thread`prevExpectedCpuBurst
      ensures Valid() && fresh(readyThreadList.Repr - old(readyThreadList.Repr))
      ensures thread.status == Ready && thread.currWaitStart == old(totalTicks)
      ensures pos <= |old(readyThreadList.Items())|
      ensures readyThreadList.Items() == InsertAt(old(readyThreadList.Items()), pos, thread)
      ensures readyThreadList.Keys() == InsertAt(old(readyThreadList.Keys()), pos, key)
      ensures old(schedulerCode == 2 && thread.prevCpuBurst > 0) ==>
                key == thread.prevExpectedCpuBurst ==
                  Ewma(old(thread.prevCpuBurst), old(thread.prevExpectedCpuBurst)) &&
                OrderedSlot(old(readyThreadList.Keys()), pos, key)
      ensures old(schedulerCode == 2 && thread.prevCpuBurst > 0 && Ascending(readyThreadList.Keys())) ==>
                Ascending(readyThreadList.Keys())
      ensures !old(schedulerCode == 2 && thread.prevCpuBurst > 0) ==>
                thread.prevExpectedCpuBurst == old(thread.prevExpectedCpuBurst) &&
                pos == |old(readyThreadList.Items())| && key == 0.0
    {
      thread.status := Ready;
      thread.currWaitStart := totalTicks;
      if schedulerCode == 2 && thread.prevCpuBurst > 0 {
        ghost var keys := readyThreadList.Keys();
        pos, key := QueueByPrediction(thread);
        OrderedAdmissionKeepsAscending(keys, pos, key, readyThreadList.Keys());
      } else {
        ghost var items, keys := readyThreadList.Items(), readyThreadList.Keys();
        readyThreadList.Append(thread);
        pos, key := |items|, 0.0;
        InsertAtEnd(items, thread);
        InsertAtEnd(keys, key);
      }
    }

    /** The shortest-job-first admission: predicts the next burst from the
        last one, records the prediction and inserts the thread in ascending
        order of prediction. */
    method QueueByPrediction(thread: Thread) returns (ghost pos: nat, ghost key: real)
      requires Valid()
      modifies readyThreadList, readyThreadList.Repr, thread`prevExpectedCpuBurst
      ensures Valid() && fresh(readyThreadList.Repr - old(readyThreadList.Repr))
      ensures key == thread.prevExpectedCpuBurst ==
                Ewma(old(thread.prevCpuBurst), old(thread.prevExpectedCpuBurst))
      ensures OrderedSlot(old(readyThreadList.Keys()), pos, key)
      ensures readyThreadList.Items() == InsertAt(old(readyThreadList.Items()), pos, thread)
      ensures readyThreadList.Keys() == InsertAt(old(readyThreadList.Keys()), pos, key)
    {
      var expectedCpuBurst := alpha * thread.prevCpuBurst as real + (1.0 - alpha) * thread.prevExpectedCpuBurst;
      // Computed by the scheduler for a report it never makes.
      ghost var error := PredictionError(thread.prevCpuBurst, expectedCpuBurst);
      thread.prevExpectedCpuBurst := expectedCpuBurst;
      pos := readyThreadList.SortedInsert(thread, expectedCpuBurst);
      key := expectedCpuBurst;
    }

    /** Takes the next thread to run off the ready list, or returns null when
        the list is empty. Codes up to 6 take the head; higher codes take the
        first thread of smallest priority value. */
    method FindNextThreadToRun() returns (next: Thread?)
      requires Valid()
      modifies readyThreadList, readyThreadList.Repr
      ensures Valid()
      ensures old(readyThreadList.Items()) == [] ==>
                next == null && readyThreadList.Items() == old(readyThreadList.Items()) &&
                readyThreadList.Repr == old(readyThreadList.Repr)
      ensures old(readyThreadList.Items()) != [] ==>
                var k := old(SelectIndex(schedulerCode, Priorities(readyThreadList.Items())));
                next == old(readyThreadList.Items())[k] &&
                readyThreadList.Items() == RemoveAt(old(readyThreadList.Items()), k) &&
                readyThreadList.Keys() == RemoveAt(old(readyThreadList.Keys()), k) &&
                readyThreadList.Repr == old(readyThreadList.Repr) - {old(readyThreadList.nodes)[k]}
    {
      if schedulerCode <= 6 {
        ghost var items, keys := readyThreadList.Items(), readyThreadList.Keys();
        next := readyThreadList.Remove();
        if items != [] {
          RemoveAtFront(items);
          RemoveAtFront(keys);
        }
        return;
      }
      ghost var before := readyThreadList.nodes;
      ghost var k;
      next, k := RemoveMinPriority();
      if before != [] {
        ViewsOfRemoveAt(before, k);
      }
    }

    /** The priority branch: scans for the first element of smallest
        priority value, then unlinks it, through Remove when it is the head
        and by a splice otherwise, and frees the element. */
    method RemoveMinPriority() returns (next: Thread?, ghost k: nat)
      requires Valid()
      modifies readyThreadList, readyThreadList.Repr
      ensures Valid()
      ensures old(readyThreadList.nodes) == [] ==>
                next == null && readyThreadList.nodes == [] &&
                readyThreadList.Repr == old(readyThreadList.Repr)
      ensures old(readyThreadList.nodes) != [] ==>
                k == old(FirstMinIndex(Priorities(readyThreadList.Items()))) &&
                next == old(readyThreadList.Items())[k] &&
                readyThreadList.nodes == RemoveAt(old(readyThreadList.nodes), k) &&
                readyThreadList.Repr == old(readyThreadList.Repr) - {old(readyThreadList.nodes)[k]}
    {
      if readyThreadList.first == null {
        return null, 0;
      }
      var minElementPtr, minThreadPtr;
      minElementPtr, minThreadPtr, k := ScanForMinPriority();
      var tempElementPtr := readyThreadList.first;
      if tempElementPtr == minElementPtr {
        assert k == 0;
        next := readyThreadList.Remove();
        RemoveAtFront(old(readyThreadList.nodes));
        return;
      }
      SpliceOut(minElementPtr, k);
      next := minThreadPtr;
    }

    /** Walks the whole ready list, keeping the first element whose thread has
        the smallest priority value seen so far. */
    method ScanForMinPriority() returns (minElementPtr: ListElement, minThreadPtr: Thread, ghost k: nat)
      requires Valid() && readyThreadList.first != null
      ensures k < |readyThreadList.nodes| && minElementPtr == readyThreadList.nodes[k]
      ensures minThreadPtr == minElementPtr.item
      ensures k == FirstMinIndex(Priorities(readyThreadList.Items()))
    {
      ghost var ns := readyThreadList.nodes;
      ghost var ts := readyThreadList.Items();
      minElementPtr := readyThreadList.first;
      var tempElementPtr: ListElement? := minElementPtr;
      var tempThreadPtr := minElementPtr.item;
      var tempPriorityValue := tempThreadPtr.priority;
      minThreadPtr := tempThreadPtr;
      var minPriorityValue := minThreadPtr.priority;
      ghost var i := 0;
      k := 0;
      while tempElementPtr != null
        invariant 0 <= i <= |ns| && k < |ns| && k <= i
        invariant tempElementPtr == if i < |ns| then ns[i] else null
        invariant minElementPtr == ns[k] && minThreadPtr == ts[k]
        invariant minPriorityValue == ts[k].priority
        invariant forall j :: 0 <= j < i ==> minPriorityValue <= ts[j].priority
        invariant forall j :: 0 <= j < k ==> minPriorityValue < ts[j].priority
        decreases |ns| - i
      {
        tempThreadPtr := tempElementPtr.item;
        tempPriorityValue := tempThreadPtr.priority;
        if tempPriorityValue < minPriorityValue {
          minElementPtr := tempElementPtr;
          minThreadPtr := tempThreadPtr;
          minPriorityValue := tempPriorityValue;
          k := i;
        }
        LinkedAt(ns, i);
        tempElementPtr := tempElementPtr.next;
        i := i + 1;
      }
      FirstMinIndexUnique(Priorities(ts), k);
    }

    /** Unlinks the element at position k > 0: a walk from the head with a
        trailing pointer rewires the predecessor around it and moves `last`
        back when it was the tail. The walk runs to the end of the list. */
    method SpliceOut(minElementPtr: ListElement, ghost k: nat)
      requires Valid() && 0 < k < |readyThreadList.nodes|
      requires minElementPtr == readyThreadList.nodes[k]
      modifies readyThreadList, readyThreadList.Repr
      ensures Valid() && readyThreadList.Repr == old(readyThreadList.Repr) - {minElementPtr}
      ensures readyThreadList.nodes == RemoveAt(old(readyThreadList.nodes), k)
    {
      ghost var ns := readyThreadList.nodes;
      ghost var n := |ns|;
      ghost var R := readyThreadList.Repr;
      var tempElementPtr: ListElement? := readyThreadList.first;
      var prevElementPtr := tempElementPtr;
      LinkedAt(ns, 0);
      tempElementPtr := tempElementPtr.next;
      ghost var j := 1;
      while tempElementPtr != null
        invariant 1 <= j <= n
        invariant tempElementPtr == if j < n then ns[j] else null
        invariant prevElementPtr == ns[j - 1]
        invariant readyThreadList.nodes == ns && readyThreadList.Repr == R
        invariant readyThreadList.first == ns[0]
        invariant forall q {:trigger ns[q].next} :: 0 <= q < n && q != k - 1 ==> ns[q].next == Succ(ns, q)
        invariant ns[k - 1].next == if j <= k then ns[k] else Succ(ns, k)
        invariant readyThreadList.last == if j > k && k == n - 1 then ns[k - 1] else ns[n - 1]
        decreases n - j
      {
        if tempElementPtr == minElementPtr {
          prevElementPtr.next := tempElementPtr.next;
          if tempElementPtr == readyThreadList.last {
            readyThreadList.last := prevElementPtr;
          }
        }
        prevElementPtr := tempElementPtr;
        tempElementPtr := tempElementPtr.next;
        j := j + 1;
      }
      LinkedAfterUnlink(ns, k);
      RemoveAtDropsEntry(ns, k);
      readyThreadList.nodes := RemoveAt(ns, k);
      // The unlinked element is freed.
      readyThreadList.Repr := R - {minElementPtr};
    }

    /** Dispatches the CPU to nextThread: it becomes the current thread and
        RUNNING, its wait period ends and its CPU burst begins; after the
        context switch a thread waiting to be destroyed is destroyed. */
    method Schedule(nextThread: Thread)
      requires Valid() && currentThread != null
      modifies this`currentThread, this`threadToBeDestroyed, this`destroyed
      modifies nextThread`status, nextThread`waitTimeSum, nextThread`currCpuBurstStart, nextThread`cpuBurstCount
      ensures Valid()
      ensures currentThread == nextThread && nextThread.status == Running
      ensures nextThread.waitTimeSum == old(nextThread.waitTimeSum) + (totalTicks - nextThread.currWaitStart)
      ensures nextThread.currCpuBurstStart == totalTicks
      ensures nextThread.cpuBurstCount == old(nextThread.cpuBurstCount) + 1
      ensures threadToBeDestroyed == null
      ensures old(threadToBeDestroyed) == null ==> destroyed == old(destroyed)
      ensures old(threadToBeDestroyed) != null ==> destroyed == old(destroyed) + {old(threadToBeDestroyed)}
      ensures readyThreadList.nodes == old(readyThreadList.nodes)
    {
      var oldThread := currentThread;
      currentThread := nextThread;
      currentThread.status := Running;
      nextThread.waitTimeSum := nextThread.waitTimeSum + (totalTicks - nextThread.currWaitStart);
      nextThread.currCpuBurstStart := totalTicks;
      currentThread.cpuBurstCount := currentThread.cpuBurstCount + 1;
      Switch(oldThread, nextThread);
      Tail();
    }

    /** The machine-level context switch. Execution may resume here in a
        different thread's frame; no modelled state changes. */
    method Switch(oldThread: Thread, nextThread: Thread)
    {
    }

    /** The step after the context switch, also run first by a thread that
        starts fresh: destroys the thread waiting to be destroyed, if any. */
    method Tail()
      modifies this`threadToBeDestroyed, this`destroyed
      ensures threadToBeDestroyed == null
      ensures old(threadToBeDestroyed) == null ==> destroyed == old(destroyed)
      ensures old(threadToBeDestroyed) != null ==> destroyed == old(destroyed) + {old(threadToBeDestroyed)}
    {
      if threadToBeDestroyed != null {
        destroyed := destroyed + {threadToBeDestroyed};
        threadToBeDestroyed := null;
      }
    }
  }
}
