/** The process struct: one class, because memory, semaphores and the scheduler change the same objects. */
module Processes {

  datatype Status = READY | RUNNING | BLOCKED | DEAD

  class Process {
    var cr3: nat
    var status: Status
    /** The next process of the scheduler's list. */
    var next: Process?
    /** The next process of the semaphore queue this one waits in. */
    var waitNext: Process?
    /** Where the saved registers are. */
    var context: nat
    var anonEnd: nat
    var elfEnd: nat

    constructor (cr3: nat, elfEnd: nat, anonEnd: nat)
      ensures this.cr3 == cr3 && this.elfEnd == elfEnd && this.anonEnd == anonEnd
      ensures status == READY && next == null && waitNext == null
    {
      this.cr3, this.elfEnd, this.anonEnd := cr3, elfEnd, anonEnd;
      status, next, waitNext, context := READY, null, null, 0;
    }
  }
}
