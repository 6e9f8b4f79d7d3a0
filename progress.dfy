/**
 * An abstract progress monitor (IProgressMonitor together with the
 * SubProgressMonitor slices handed to each checker). It counts the units of
 * work begun, the units handed out to sub-monitors and the cancellation
 * polls; whether a poll answers "canceled" is an oracle fixed by the caller.
 */
module Progress {

  class ProgressMonitor {
    /** The total work announced by the last `beginTask`. */
    var taskSize: nat
    /** The units handed out, one `new SubProgressMonitor(pm, ticks)` at a time. */
    var allotted: nat
    /** How many times `isCanceled` has been asked. */
    var polls: nat
    /** The answer of the n-th call of `isCanceled` (counting from 0). */
    const cancelAt: nat -> bool

    constructor (cancelAt: nat -> bool)
      ensures this.cancelAt == cancelAt
      ensures taskSize == 0 && allotted == 0 && polls == 0
    {
      this.cancelAt := cancelAt;
      taskSize, allotted, polls := 0, 0, 0;
    }

    /** `beginTask(name, totalWork)`. */
    method BeginTask(totalWork: nat)
      modifies this`taskSize
      ensures taskSize == totalWork
    {
      taskSize := totalWork;
    }

    /** `new SubProgressMonitor(this, ticks)`: a slice of `ticks` units of this task. */
    method NewSubMonitor(ticks: nat)
      modifies this`allotted
      ensures allotted == old(allotted) + ticks
    {
      allotted := allotted + ticks;
    }

    /** `isCanceled()`: consults the oracle with the number of polls made before. */
    method IsCanceled() returns (canceled: bool)
      modifies this`polls
      ensures canceled == cancelAt(old(polls))
      ensures polls == old(polls) + 1
    {
      canceled := cancelAt(polls);
      polls := polls + 1;
    }
  }
}
