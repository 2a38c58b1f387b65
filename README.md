# Nachos CPU scheduler, modelled in Dafny

This project models the CPU scheduler of a Nachos kernel
(`nachos/code/threads/scheduler.cc`). The scheduler keeps a ready list of
threads and admits threads to it (`ThreadIsReadyToRun`). It picks the next
thread to run (`FindNextThreadToRun`) and dispatches the CPU to that thread
(`Schedule`, `Tail`).

Admission under shortest-job-first (policy code 2) predicts each thread's
next CPU burst as an exponential average of the last burst and the last
prediction. Alpha is 1/2. The thread is then inserted in ascending order of
that prediction. In every other case the thread is appended at the tail.
Admission by prediction keeps an ascending ready list ascending. A thread
with no burst on record is appended with key 0 even under SJF, which breaks
that order behind any positive key.

Selection depends on the policy code:
- For codes up to 6, the head of the list is popped.
- For higher codes, the list is scanned for the first thread with the
  smallest priority value, and that element is spliced out of the linked
  list in place.

Dispatch makes the chosen thread current and RUNNING. It closes the thread's
wait period and opens its CPU burst. After the context switch, it destroys
the thread that was waiting to be destroyed.

Modules:
- `Threads` (`threads.dfy`) holds the thread record and the fields the
  scheduler reads and writes.
- `Policy` (`policy.dfy`) holds the pure parts:
  - the burst predictor;
  - the selection rule (`FirstMinIndex`, `SelectIndex`);
  - the sequence operations that describe how the ready list changes
    (`RemoveAt`, `InsertAt`, `OrderedSlot`);
  - lemmas about these.
- `ReadyList` (`ready_list.dfy`) is the singly linked ready list. It has
  `first` and `last` pointers and a ghost sequence `nodes` of its elements
  in link order. `Items()` and `Keys()` are the sequence views the contracts
  speak about.
- `Scheduling` (`scheduler.dfy`) is the scheduler class:
  - it holds the ready list, `alpha`, `quantum`, the `cpuCount` array, the
    policy code, the tick counter, the current thread and the thread
    awaiting destruction;
  - its methods follow the source loop by loop and pointer by pointer, and
    both `FindNextThreadToRun` loops carry their invariants.
- `ServiceOrder` (`service_order.dfy`) composes repeated selections into
  `DrainOrder`. It states the order in which queued threads are served.

## Model

| member | source | states |
|---|---|---|
| Scheduling.Scheduler.constructor | nachos/code/threads/scheduler.cc:30-43 | The ready list is new and empty, alpha is 0.5, quantum is 0, and every `cpuCount[i]` below the thread limit is 0. |
| Scheduling.Scheduler.ThreadIsReadyToRun | nachos/code/threads/scheduler.cc:63-92 | The thread becomes READY and its wait starts at the current tick. The ready list is the old list with this thread inserted once at `pos`, and every other entry keeps its order. Under SJF with a previous burst, the stored prediction and the sort key are both the EWMA of the old burst and prediction, and `pos` is an ascending-order slot. Otherwise the thread goes at the tail and its prediction is unchanged. An admission by prediction keeps an ascending key list ascending. |
| Scheduling.Scheduler.QueueByPrediction | nachos/code/threads/scheduler.cc:72-86 | The new prediction is `Ewma(prevCpuBurst, old prediction)`. It is stored in the thread and used as the key of a sorted insertion. |
| Scheduling.Scheduler.FindNextThreadToRun | nachos/code/threads/scheduler.cc:102-164 | An empty list gives null and stays unchanged. Otherwise the result is the entry at `SelectIndex` (the head for codes up to 6, the first minimum priority above 6). The list loses exactly that entry, and the rest keep their order. The list stays well formed, including `last` when the tail was taken, and exactly the taken element leaves the footprint (it is freed). |
| Scheduling.Scheduler.RemoveMinPriority | nachos/code/threads/scheduler.cc:108-163 | The priority branch: null on an empty list. Otherwise it returns the thread at `FirstMinIndex` of the queued priorities, the node sequence is the old one without that node, and that node leaves the footprint. |
| Scheduling.Scheduler.ScanForMinPriority | nachos/code/threads/scheduler.cc:115-136 | The loop's result is the element at the position of the first thread whose priority is at most every queued priority and strictly below every earlier one. |
| Scheduling.Scheduler.SpliceOut | nachos/code/threads/scheduler.cc:139-162 | The walk with a trailing pointer unlinks the element at position k > 0. The list stays linked and acyclic, and `last` moves back when that element was the tail. The node sequence is the old one without position k, and the freed element leaves the footprint. |
| Scheduling.Scheduler.Schedule | nachos/code/threads/scheduler.cc:180-232 | `currentThread` becomes the incoming thread, which is RUNNING. Its `waitTimeSum` grows by exactly `totalTicks - currWaitStart`, its burst starts at `totalTicks`, and `cpuBurstCount` grows by 1. The ready list is untouched. Afterwards `threadToBeDestroyed` is null, and a pending thread is added to `destroyed`. |
| Scheduling.Scheduler.Tail | nachos/code/threads/scheduler.cc:240-258 | Only the deferred destruction: `threadToBeDestroyed` becomes null, and a pending thread joins `destroyed`. Nothing else may change. |
| ReadyList.List.Append | nachos/code/threads/scheduler.cc:90 | The threads are the old ones plus the new thread at the end, with key 0, and the list stays well formed. |
| ReadyList.List.Remove | nachos/code/threads/scheduler.cc:107 | An empty list gives null and is unchanged. Otherwise the head thread is returned, the list is the old tail, and the head element leaves the footprint (it is freed). |
| ReadyList.List.SortedInsert | nachos/code/threads/scheduler.cc:86 | The thread is inserted once, with its key, at a slot where every earlier key is at most the key and the next key is at least it. Every other entry keeps its order. |
| ReadyList.List.FindSlot | nachos/code/threads/scheduler.cc:86 | The walk finds an ascending-order slot for the key, along with the element to link after it (null for the head). |
| ReadyList.List.LinkFirst | nachos/code/threads/scheduler.cc:86 | Linking at the head gives the node sequence with the new element in front, and the list stays well formed. |
| ReadyList.List.LinkAfter | nachos/code/threads/scheduler.cc:86 | Linking after the element at `pos - 1` puts the new element at `pos` of the node sequence, and moves `last` when it was the tail. |
| Policy.Ewma | nachos/code/threads/scheduler.cc:73 | With alpha 1/2, the prediction sits at equal distance from the old prediction and the burst, between the two. |
| Policy.PredictionError | nachos/code/threads/scheduler.cc:75-78 | The absolute difference between burst and prediction: non-negative, and equal to one of the two differences. |
| Policy.EwmaExample | nachos/code/threads/scheduler.cc:73 | A burst of 6 with prediction 4 gives prediction 5 and error 1. Another burst of 6 then gives 5.5. |
| Policy.FirstMinIndex | nachos/code/threads/scheduler.cc:126-136 | An index whose priority is at most every priority, and strictly below every earlier one. |
| Policy.SelectIndex | nachos/code/threads/scheduler.cc:106-108 | Codes up to 6 select position 0. Higher codes select the first position of minimum priority. |
| Policy.FirstMinIndexUnique | nachos/code/threads/scheduler.cc:130 | Any index that is a minimum and strictly below all earlier entries is the one FirstMinIndex gives. |
| Policy.TieGoesToEarliest | nachos/code/threads/scheduler.cc:130 | With the strict comparison, the earlier of two equal minima wins: priorities 50, 10, 10, 30 select position 1. |
| Policy.RemoveAt | nachos/code/threads/scheduler.cc:139-162 | One entry is removed: entries before k are unchanged, those after shift down by one, and the multiset loses exactly the removed entry. |
| Policy.InsertAt | nachos/code/threads/scheduler.cc:86-90 | One entry is inserted at i: entries before i are unchanged, those after shift up by one, and the multiset gains exactly x. |
| Policy.RemoveAtFront | nachos/code/threads/scheduler.cc:107 | Removing position 0 is taking the tail. |
| Policy.InsertAtEnd | nachos/code/threads/scheduler.cc:90 | Inserting at the length is appending. |
| Policy.RemoveInserted | nachos/code/threads/scheduler.cc:68-91 | Removing what was just inserted restores the old list, so admission leaves every other entry in its old relative order. |
| Policy.InsertAtOrderedSlotKeepsAscending | nachos/code/threads/scheduler.cc:86 | Inserting at an ascending-order slot keeps an ascending key sequence ascending. |
| Policy.AppendZeroBreaksAscending | nachos/code/threads/scheduler.cc:88-90 | Appending key 0 behind any positive key leaves the keys out of ascending order, which is what a first-time thread does under SJF. |
| Policy.OrderedSlotExtremes | nachos/code/threads/scheduler.cc:86 | A key smaller than every queued key goes to the front, and one larger than every queued key goes to the back. |
| Policy.InsertAtKeepsDistinct | nachos/code/threads/scheduler.cc:86-90 | Inserting a fresh element keeps the elements pairwise distinct. |
| Policy.RemoveAtDropsEntry | nachos/code/threads/scheduler.cc:161 | Removal from a sequence without repeats leaves it without repeats, and the removed element no longer occurs in it. |
| ServiceOrder.DrainOrder | nachos/code/threads/scheduler.cc:102-164 | Repeated selection with no admissions in between serves every queued entry exactly once. |
| ServiceOrder.FifoDrain | nachos/code/threads/scheduler.cc:106-107 | For codes up to 6, threads are served in list order, which is admission order when only appends happened. |
| ServiceOrder.PriorityDrainAscending | nachos/code/threads/scheduler.cc:115-136 | Above code 6, a sequence of priority values drained by itself comes out non-decreasing. |
| ServiceOrder.DrainPriorities | nachos/code/threads/scheduler.cc:115-136 | The priorities of the threads in served order are exactly the queued priorities drained by themselves. |
| ServiceOrder.PriorityDrainThreads | nachos/code/threads/scheduler.cc:115-136 | Above code 6, queued threads are served in non-decreasing order of their priority value. |
| ServiceOrder.SjfAdmissionExample | nachos/code/threads/scheduler.cc:86 | Predictions 7, 3 and 5 admitted in that order are queued as 3, 5, 7, whatever slots the sorted insertion picks. |

## Left out

- The list implementation (`list.cc`), the thread class (`thread.h`), the kernel globals (`system.h`), `progtest.cc` and `stats.cc` are not part of this model.
  - The list is given its own straightforward implementation, with the sequence-level behaviour the scheduler relies on.
  - The policy code, the tick counter and the current thread are inputs to the scheduler object.
  - The policy code is fixed for the object's lifetime, as it is after the batch file has been read.
- MAX_THREAD_COUNT is not part of this model; the thread limit is a constructor parameter.
- Integer widths: ticks, bursts, priorities and counters are unbounded integers, so 32-bit overflow of `wait_time_sum` and `cpu_burst_count` is not modelled.
- Policy.Ewma: alpha is exactly 1/2 and the arithmetic is exact over reals. IEEE double rounding is not modelled.
- ReadyList.List.SortedInsert: the key is the exact real prediction. Any conversion of the `double` prediction to the list's key type is not modelled, and no tie rule between equal keys is promised.
- Policy.PredictionError: the integer `error` in the source truncates toward zero. The model keeps the exact difference as a ghost value, since the source never uses it.
- The `USER_PROGRAM` register and address-space hooks, `CheckOverflow`, the `DEBUG` messages, `Print`/`Mapcar` and the destructor are left out. They are foreign calls, console output or deallocation.
- Scheduling.Scheduler.Switch: the assembly context switch is a step that changes no modelled state. Execution resuming in another thread's frame is not modelled.
- Deallocation: `delete` of a thread is recorded by adding it to the ghost set `destroyed`. Freeing a list element, in `Remove` and in `SpliceOut`, is recorded by removing it from the list's footprint.
- The model does not state that the ready list holds only READY threads. The source does not maintain that by itself: the callers set the status.
- Concrete scenarios with several calls are stated as lemmas on `DrainOrder` over sequences (served order), not as method-call sequences on a heap.
