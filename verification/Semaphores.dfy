/**
  Counting semaphores with FIFO queues and hand-off: a signal gives its token
  straight to the process that has waited longest.

  The first half is the semaphore as a value and what holds over any sequence of
  operations.  The second half is the kernel's code: queues threaded through the
  `waitNext` fields of the processes, for all semaphores at once.
 */
module Semaphores {

  import opened Collections
  import opened Processes

  // -- one semaphore as a value -----------------------------------------------

  datatype Sem<P> = Sem(count: int, queue: seq<P>)

  predicate GoodSem<P>(s: Sem<P>) {
    |s.queue| == if s.count < 0 then -s.count else 0
  }

  /** `p` takes a token, or queues when there is none. */
  function Wait<P>(s: Sem<P>, p: P): Sem<P> {
    Sem(s.count - 1, if s.count - 1 < 0 then s.queue + [p] else s.queue)
  }

  function TryWait<P>(s: Sem<P>): (Sem<P>, bool) {
    if s.count > 0 then (Sem(s.count - 1, s.queue), true) else (s, false)
  }

  /** A token comes back, and goes to the head of the queue if anybody waits. */
  function Signal<P>(s: Sem<P>): Sem<P> {
    Sem(s.count + 1, if s.count + 1 <= 0 && s.queue != [] then s.queue[1..] else s.queue)
  }

  datatype Op<P> = DoWait(p: P) | DoTry | DoSignal

  function Apply<P>(s: Sem<P>, op: Op<P>): Sem<P> {
    match op
    case DoWait(p) => Wait(s, p)
    case DoTry => TryWait(s).0
    case DoSignal => Signal(s)
  }

  function After<P>(s: Sem<P>, ops: seq<Op<P>>): Sem<P> {
    if ops == [] then s else Apply(After(s, ops[..|ops| - 1]), ops[|ops| - 1])
  }

  /** Processes that had to queue, in the order they came. */
  function Queued<P>(s: Sem<P>, ops: seq<Op<P>>): seq<P> {
    if ops == [] then [] else
      var front, op := ops[..|ops| - 1], ops[|ops| - 1];
      Queued(s, front) + if op.DoWait? && After(s, front).count - 1 < 0 then [op.p] else []
  }

  /** Processes that signals have woken, in the order they were. */
  function Woken<P>(s: Sem<P>, ops: seq<Op<P>>): seq<P> {
    if ops == [] then [] else
      var front, op := ops[..|ops| - 1], ops[|ops| - 1];
      var t := After(s, front);
      Woken(s, front) + if op.DoSignal? && t.count + 1 <= 0 && t.queue != [] then [t.queue[0]] else []
  }

  lemma {:induction false} StaysGood<P>(s: Sem<P>, ops: seq<Op<P>>)
    requires GoodSem(s)
    ensures GoodSem(After(s, ops))
  {
    if ops != [] {
      StaysGood(s, ops[..|ops| - 1]);
    }
  }

  /**
    First come, first served, and nobody lost: those queued at the start, then those
    who queued since, are those woken so far, in that order, followed by the queue.
   */
  lemma {:induction false} WokenInOrder<P>(s: Sem<P>, ops: seq<Op<P>>)
    requires GoodSem(s)
    ensures s.queue + Queued(s, ops) == Woken(s, ops) + After(s, ops).queue
  {
    if ops != [] {
      var front, op := ops[..|ops| - 1], ops[|ops| - 1];
      WokenInOrder(s, front);
      var t := After(s, front);
      if op.DoWait? && t.count - 1 < 0 {
        assert s.queue + (Queued(s, front) + [op.p]) == s.queue + Queued(s, front) + [op.p];
        assert Woken(s, front) + t.queue + [op.p] == Woken(s, front) + (t.queue + [op.p]);
      } else if op.DoSignal? && t.count + 1 <= 0 && t.queue != [] {
        assert Woken(s, ops) == Woken(s, front) + [t.queue[0]] && Queued(s, ops) == Queued(s, front);
        assert Woken(s, front) + t.queue == Woken(s, front) + [t.queue[0]] + t.queue[1..];
      } else {
        assert Woken(s, ops) == Woken(s, front) && Queued(s, ops) == Queued(s, front);
      }
    }
  }

  function Signals<P>(ops: seq<Op<P>>): nat {
    if ops == [] then 0 else Signals(ops[..|ops| - 1]) + if ops[|ops| - 1].DoSignal? then 1 else 0
  }

  /** As long as a process of the first queue still waits, each signal has woken somebody. */
  lemma {:induction false} SignalsWake<P>(s: Sem<P>, ops: seq<Op<P>>)
    requires GoodSem(s)
    ensures |Woken(s, ops)| >= (if Signals(ops) <= |s.queue| then Signals(ops) else |s.queue|)
  {
    if ops != [] {
      var front := ops[..|ops| - 1];
      SignalsWake(s, front);
      StaysGood(s, front);
      WokenInOrder(s, front);
      assert |s.queue| + |Queued(s, front)| == |Woken(s, front)| + |After(s, front).queue|;
    }
  }

  /** No wake-up is lost: the process `k` places behind the head is woken by the signal `k + 1`, whoever queues meanwhile. */
  lemma WokenByItsSignal<P>(s: Sem<P>, ops: seq<Op<P>>, k: nat)
    requires GoodSem(s) && k < |s.queue| && Signals(ops) > k
    ensures k < |Woken(s, ops)| && Woken(s, ops)[k] == s.queue[k]
  {
    SignalsWake(s, ops);
    WokenInOrder(s, ops);
    assert (s.queue + Queued(s, ops))[k] == (Woken(s, ops) + After(s, ops).queue)[k];
  }

  // -- the kernel's semaphores ------------------------------------------------

  class Semaphore {
    var count: int
    var waitHead: Process?
    var waitTail: Process?
    /** The processes waiting, oldest first. */
    ghost var queue: seq<Process>

    constructor (initialCount: int)
      ensures View() == Sem(initialCount, []) && waitHead == null && waitTail == null
    {
      count, waitHead, waitTail := initialCount, null, null;
      queue := [];
    }

    ghost function View(): Sem<Process>
      reads this
    {
      Sem(count, queue)
    }
  }

  /** `head`, `tail` and the links between are the queue. */
  ghost predicate Chain(q: seq<Process>, head: Process?, tail: Process?)
    reads q
  {
    && (q == [] ==> head == null && tail == null)
    && (q != [] ==> head == q[0] && tail == q[|q| - 1] && q[|q| - 1].waitNext == null)
    && forall i | 0 <= i < |q| - 1 :: q[i].waitNext == q[i + 1]
  }

  ghost predicate Waiting(s: Semaphore, procs: set<Process>)
    reads s, procs
  {
    && (forall p | p in s.queue :: p in procs && p.status == BLOCKED)
    && GoodSem(s.View()) && Chain(s.queue, s.waitHead, s.waitTail) && NoRepeats(s.queue)
  }

  ghost predicate NoCommon(x: seq<Process>, y: seq<Process>) {
    forall p | p in x :: p !in y
  }

  ghost predicate InQueue(p: Process, sems: set<Semaphore>)
    reads sems
  {
    exists s | s in sems :: p in s.queue
  }

  /**
    All semaphores and all processes at once: queue lengths are what the counts say,
    links agree, no process is in two queues, and a process is blocked exactly when it
    is in a queue.
   */
  ghost predicate QueuesInv(sems: set<Semaphore>, procs: set<Process>)
    reads sems, procs
  {
    && (forall s | s in sems :: Waiting(s, procs))
    && (forall s, t {:trigger NoCommon(s.queue, t.queue)} | s in sems && t in sems && s != t :: NoCommon(s.queue, t.queue))
    && (forall p {:trigger InQueue(p, sems)} | p in procs :: p.status == BLOCKED <==> InQueue(p, sems))
  }

  /** A process waits in one queue at most, at one place. */
  lemma OnePlace(sems: set<Semaphore>, procs: set<Process>, s: Semaphore, i: nat, t: Semaphore, j: nat)
    requires QueuesInv(sems, procs) && s in sems && t in sems && i < |s.queue| && j < |t.queue|
    ensures s.queue[i] == t.queue[j] <==> s == t && i == j
  {
    assert Waiting(s, procs);
    assert s != t ==> NoCommon(s.queue, t.queue);
    if s.queue[i] == t.queue[j] {
      assert s.queue[i] in s.queue && t.queue[j] in t.queue;
    }
  }

  twostate predicate OthersUnchanged(sem: Semaphore, sems: set<Semaphore>)
    reads sems
  {
    forall s | s in sems && s != sem :: s.View() == old(s.View()) && s.waitHead == old(s.waitHead) && s.waitTail == old(s.waitTail)
  }

  /** Processes neither in the old nor in the new queue keep their status and link. */
  twostate predicate OnlyOwnTouched(sem: Semaphore, procs: set<Process>)
    reads sem, procs
  {
    forall p | p in procs && p !in old(sem.queue) && p !in sem.queue ::
      p.status == old(p.status) && p.waitNext == old(p.waitNext)
  }

  /** One semaphore among all semaphores and processes. */
  datatype Focus = Focus(sem: Semaphore, sems: set<Semaphore>, procs: set<Process>)

  /** Work on one queue leaves the others, if no process moves between queues. */
  twostate lemma OthersKept(f: Focus)
    requires var Focus(sem, sems, procs) := f;
      && old(QueuesInv(sems, procs)) && sem in sems && Waiting(sem, procs)
      && OthersUnchanged(sem, sems) && OnlyOwnTouched(sem, procs)
      && (forall p | p in procs && p in sem.queue :: p in old(sem.queue) || !old(InQueue(p, sems)))
      && (forall p | p in procs && p in old(sem.queue) && p !in sem.queue :: p.status != BLOCKED)
    ensures QueuesInv(f.sems, f.procs)
  {
    var Focus(sem, sems, procs) := f;
    forall s | s in sems && s != sem
      ensures Waiting(s, procs) && NoCommon(s.queue, sem.queue) && NoCommon(sem.queue, s.queue)
    {
      assert old(Waiting(s, procs)) && old(NoCommon(s.queue, sem.queue));
      forall p | p in s.queue ensures p !in sem.queue {
        assert old(InQueue(p, sems));
      }
    }
    forall s, t | s in sems && t in sems && s != t ensures NoCommon(s.queue, t.queue) {
      if s != sem && t != sem {
        assert old(NoCommon(s.queue, t.queue));
      }
    }
    forall p | p in procs ensures p.status == BLOCKED <==> InQueue(p, sems) {
      if p in sem.queue {
      } else if p in old(sem.queue) {
        forall s | s in sems ensures p !in s.queue {
          assert s != sem ==> old(NoCommon(sem.queue, s.queue));
        }
      } else {
        assert old(InQueue(p, sems)) <==> old(p.status) == BLOCKED;
        if old(InQueue(p, sems)) {
          var s :| s in sems && p in old(s.queue);
          assert p in s.queue;
        }
        if InQueue(p, sems) {
          var s :| s in sems && p in s.queue;
          assert p in old(s.queue);
        }
      }
    }
  }

  /** `sem_create`. */
  method SemCreate(initialCount: int, ghost sems: set<Semaphore>, ghost procs: set<Process>) returns (sem: Semaphore)
    requires QueuesInv(sems, procs) && 0 <= initialCount
    ensures fresh(sem) && sem.View() == Sem(initialCount, []) && QueuesInv(sems + {sem}, procs)
  {
    sem := new Semaphore(initialCount);
    forall p | p in procs ensures p.status == BLOCKED <==> InQueue(p, sems + {sem}) {
      assert p.status == BLOCKED <==> InQueue(p, sems);
    }
  }

  /** `sem_wait` up to the yield; says whether the current process is to yield. */
  method SemWait(sem: Semaphore, current: Process, ghost sems: set<Semaphore>, ghost procs: set<Process>)
    returns (blocked: bool)
    requires QueuesInv(sems, procs) && sem in sems && current in procs && current.status != BLOCKED
    modifies sem, current`status, procs`waitNext
    ensures QueuesInv(sems, procs)
    ensures sem.View() == Wait(old(sem.View()), current)
    ensures blocked <==> current in sem.queue
    ensures blocked <==> old(sem.count) <= 0
    ensures sem.count == old(sem.count) - 1 && sem.queue == if blocked then old(sem.queue) + [current] else old(sem.queue)
    ensures current.status == if blocked then BLOCKED else old(current.status)
  {
    assert !InQueue(current, sems);
    assert Waiting(sem, procs);
    sem.count := sem.count - 1;
    blocked := sem.count < 0;
    if blocked {
      current.status := BLOCKED;
      current.waitNext := null;
      if sem.waitTail != null {
        sem.waitTail.waitNext := current;
      } else {
        sem.waitHead := current;
      }
      sem.waitTail := current;
      sem.queue := sem.queue + [current];
    }
    OthersKept(Focus(sem, sems, procs));
  }

  /** `sem_trywait`. */
  method SemTryWait(sem: Semaphore, ghost sems: set<Semaphore>, ghost procs: set<Process>) returns (acquired: bool)
    requires QueuesInv(sems, procs) && sem in sems
    modifies sem`count
    ensures QueuesInv(sems, procs)
    ensures (sem.View(), acquired) == TryWait(old(sem.View()))
    ensures acquired <==> old(sem.count) > 0
    ensures sem.count == (if acquired then old(sem.count) - 1 else old(sem.count)) && sem.queue == old(sem.queue)
  {
    assert Waiting(sem, procs);
    if sem.count > 0 {
      sem.count := sem.count - 1;
      OthersKept(Focus(sem, sems, procs));
      return true;
    }
    return false;
  }

  /** `sem_signal`; the ghost result is the process woken. */
  method SemSignal(sem: Semaphore, ghost sems: set<Semaphore>, ghost procs: set<Process>) returns (ghost woken: Process?)
    requires QueuesInv(sems, procs) && sem in sems
    modifies sem, procs`status, procs`waitNext
    ensures QueuesInv(sems, procs)
    ensures sem.View() == Signal(old(sem.View()))
    ensures woken == if old(sem.queue) == [] then null else old(sem.queue)[0]
    ensures woken != null <==> old(sem.count) < 0
    ensures sem.count == old(sem.count) + 1
    ensures sem.queue == if old(sem.queue) == [] then [] else old(sem.queue)[1..]
    ensures woken != null ==> woken.status == READY && !InQueue(woken, sems)
    ensures forall p | p in procs && p != woken :: p.status == old(p.status)
  {
    woken := null;
    assert Waiting(sem, procs);
    sem.count := sem.count + 1;
    if sem.count <= 0 && sem.waitHead != null {
      var head := sem.waitHead;
      woken := head;
      sem.waitHead := head.waitNext;
      if sem.waitHead == null {
        sem.waitTail := null;
      }
      head.waitNext := null;
      head.status := READY;
      sem.queue := sem.queue[1..];
    }
    OthersKept(Focus(sem, sems, procs));
    assert woken != null ==> woken in procs;
  }
}
