// The thread record the scheduler reads and updates. Only the fields the
// scheduler touches are modelled; the thread's stack, machine registers and
// address space belong to other parts of the kernel.
module Threads {

  datatype ThreadStatus = JustCreated | Running | Ready | Blocked

  class Thread {
    const pid: int
    const name: string
    var status: ThreadStatus
    /** Static priority; a smaller value is a more urgent thread. */
    var priority: int
    /** Length of the CPU burst the thread last completed (0 before any). */
    var prevCpuBurst: int
    /** The predictor's estimate of the next CPU burst. */
    var prevExpectedCpuBurst: real
    var waitTimeSum: int
    var currWaitStart: int
    var currCpuBurstStart: int
    var cpuBurstCount: int

    constructor (pid: int, name: string, priority: int)
      ensures this.pid == pid && this.name == name && this.priority == priority
      ensures status == JustCreated
      ensures prevCpuBurst == 0 && prevExpectedCpuBurst == 0.0
      ensures waitTimeSum == 0 && currWaitStart == 0 && currCpuBurstStart == 0 && cpuBurstCount == 0
    {
      this.pid := pid;
      this.name := name;
      this.priority := priority;
      status := JustCreated;
      prevCpuBurst := 0;
      prevExpectedCpuBurst := 0.0;
      waitTimeSum := 0;
      currWaitStart := 0;
      currCpuBurstStart := 0;
      cpuBurstCount := 0;
    }
  }

  /** The priorities of a sequence of threads, position by position. */
  ghost function Priorities(ts: seq<Thread>): (ps: seq<int>)
    reads ts
    ensures |ps| == |ts|
    ensures forall i :: 0 <= i < |ts| ==> ps[i] == ts[i].priority
  {
    seq(|ts|, i reads ts requires 0 <= i < |ts| => ts[i].priority)
  }
}
