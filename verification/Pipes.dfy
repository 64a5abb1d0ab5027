/**
  Pipes under every interleaving: a ring buffer guarded by a mutex and two counting
  semaphores, any number of writers and readers, and the write an interrupt handler
  does without the mutex.

  A state transition is one statement between semaphore calls or one IRQ-off
  section.  A thread's `pc` is what it does next.  A wait moves the `pc` on at once;
  a thread that is in a queue then cannot move until a signal has taken it out, and
  at that moment it has the token, resumed or not.
 */
module Pipes {

  import opened Bytes
  import opened Collections
  import opened Integers
  import opened Semaphores

  type Pid = nat

  /** A byte put in or taken out, and by whom. */
  datatype Item = Item(pid: Pid, value: byte)

  datatype Pc =
    | Idle
    | WWait | WLock | WStore | WAdvance | WUnlock | WSignal
    | RWait | RLock | RLoad | RAdvance | RUnlock | RSignal
    | TStore | TSignal

  /**
    `data` and `i` belong to the write under way, `len`, `i` and `out` to the read.
    `sent` is all the thread has meant to put in, `got` all it has received, over all
    its calls, and `base` what the one in question was when the call began.
   */
  datatype Thread = Thread(
    pc: Pc, data: seq<byte>, i: nat, len: nat, out: seq<byte>,
    sent: seq<byte>, got: seq<byte>, base: seq<byte>)

  /** `written` and `taken`: what has gone in and come out, in the order of the position updates. */
  datatype State = State(
    buffer: seq<byte>, readPos: nat, writePos: nat,
    lock: Sem<Pid>, empty: Sem<Pid>, full: Sem<Pid>,
    threads: map<Pid, Thread>,
    written: seq<Item>, taken: seq<Item>)

  // -- the code ---------------------------------------------------------------

  /**
    `pipe_create`, with the threads that will use the pipe, whatever the buffer holds.
    The semaphore keeps the length as an `int`.
   */
  function Create(buffer: seq<byte>, pids: set<Pid>): State {
    State(buffer, 0, 0, Sem(1, []), Sem(Int32(|buffer|), []), Sem(0, []),
          map p | p in pids :: Thread(Idle, [], 0, 0, [], [], [], []), [], [])
  }

  datatype Act = Write(data: seq<byte>) | Read(len: nat) | TryWrite(value: byte) | Continue

  predicate Queued(s: State, p: Pid) {
    p in s.lock.queue || p in s.empty.queue || p in s.full.queue
  }

  /** Nobody is between storing a byte and moving the write position. */
  predicate NoWriterMidway(s: State) {
    forall p | p in s.threads :: !s.threads[p].pc.WAdvance?
  }

  /** A call starts when none is under way; otherwise the thread goes on, unless it is queued. */
  predicate Enabled(s: State, p: Pid, a: Act) {
    && p in s.threads && !Queued(s, p) && |s.buffer| > 0
    && s.writePos < |s.buffer| && s.readPos < |s.buffer|
    && var th := s.threads[p];
      && (a.Continue? <==> !th.pc.Idle?)
      && (th.pc.WStore? || th.pc.WAdvance? || th.pc.TStore? ==> th.i < |th.data|)
      && (th.pc.RAdvance? ==> th.out != [])
  }

  function Put(s: State, p: Pid, th: Thread): State {
    s.(threads := s.threads[p := th])
  }

  function Goto(s: State, p: Pid, pc: Pc): State
    requires p in s.threads
  {
    Put(s, p, s.threads[p].(pc := pc))
  }

  /** One step of thread `p`. */
  function Step(s: State, p: Pid, a: Act): State
    requires Enabled(s, p, a)
  {
    var th := s.threads[p];
    match a
    case Write(data) => if data == [] then s else Put(s, p, th.(pc := WWait, data := data, i := 0, base := th.sent))
    case Read(len) => if len == 0 then s else Put(s, p, th.(pc := RWait, len := len, i := 0, out := [], base := th.got))
    case TryWrite(value) =>
      var (empty, acquired) := TryWait(s.empty);
      if acquired then Put(s, p, th.(pc := TStore, data := [value], i := 0, base := th.sent)).(empty := empty) else s
    case Continue =>
      match th.pc
      case Idle => s
      case WWait => Goto(s, p, WLock).(empty := Wait(s.empty, p))
      case WLock => Goto(s, p, WStore).(lock := Wait(s.lock, p))
      case WStore => Goto(s, p, WAdvance).(buffer := s.buffer[s.writePos := th.data[th.i]])
      case WAdvance => Advanced(s, p, WUnlock)
      case WUnlock => Goto(s, p, WSignal).(lock := Signal(s.lock))
      case WSignal =>
        Put(s, p, th.(pc := if th.i + 1 < |th.data| then WWait else Idle, i := th.i + 1)).(full := Signal(s.full))
      case RWait =>
        if th.i == 0 then Goto(s, p, RLock).(full := Wait(s.full, p))
        else
          var (full, acquired) := TryWait(s.full);
          if acquired then Goto(s, p, RLock).(full := full) else Goto(s, p, Idle)
      case RLock => Goto(s, p, RLoad).(lock := Wait(s.lock, p))
      case RLoad => Put(s, p, th.(pc := RAdvance, out := th.out + [s.buffer[s.readPos]]))
      case RAdvance =>
        var value := th.out[|th.out| - 1];
        Put(s, p, th.(pc := RUnlock, got := th.got + [value])).(
          readPos := (s.readPos + 1) % |s.buffer|, taken := s.taken + [Item(p, value)])
      case RUnlock => Goto(s, p, RSignal).(lock := Signal(s.lock))
      case RSignal =>
        Put(s, p, th.(pc := if th.i + 1 < th.len then RWait else Idle, i := th.i + 1)).(empty := Signal(s.empty))
      case TStore => Advanced(s.(buffer := s.buffer[s.writePos := th.data[th.i]]), p, TSignal)
      case TSignal => Goto(s, p, Idle).(full := Signal(s.full))
  }

  /** The write position moves past what the buffer holds there, whatever that is. */
  function Advanced(s: State, p: Pid, pc: Pc): State
    requires p in s.threads && s.writePos < |s.buffer| && s.threads[p].i < |s.threads[p].data|
  {
    var th := s.threads[p];
    Put(s, p, th.(pc := pc, sent := th.sent + [th.data[th.i]])).(
      writePos := (s.writePos + 1) % |s.buffer|,
      written := s.written + [Item(p, s.buffer[s.writePos])])
  }

  // -- who holds what ---------------------------------------------------------

  datatype Kind = UsesLock | HasByte | HasRoom

  /**
    `UsesLock`: past the lock's wait and before its signal.  `HasByte`: has taken a
    token of `full` and not yet moved the read position, or has moved the write
    position and not yet given one.  `HasRoom`: the same for `empty`.
   */
  predicate Is(pc: Pc, k: Kind) {
    match k
    case UsesLock => pc.WStore? || pc.WAdvance? || pc.WUnlock? || pc.RLoad? || pc.RAdvance? || pc.RUnlock?
    case HasByte => pc.RLock? || pc.RLoad? || pc.RAdvance? || pc.WUnlock? || pc.WSignal? || pc.TSignal?
    case HasRoom => pc.WLock? || pc.WStore? || pc.WAdvance? || pc.TStore? || pc.RUnlock? || pc.RSignal?
  }

  ghost function Members(ts: map<Pid, Thread>, k: Kind): set<Pid> {
    set p | p in ts && Is(ts[p].pc, k) :: p
  }

  lemma MembersAfter(ts: map<Pid, Thread>, p: Pid, th: Thread, k: Kind)
    requires p in ts
    ensures |Members(ts[p := th], k)| == |Members(ts, k)| - One(Is(ts[p].pc, k)) + One(Is(th.pc, k))
  {
    var m, m' := Members(ts, k), Members(ts[p := th], k);
    forall q | q != p ensures q in m <==> q in m' {
      assert q in ts[p := th] <==> q in ts;
    }
    assert p in ts[p := th] && ts[p := th][p] == th;
    assert (p in m <==> Is(ts[p].pc, k)) && (p in m' <==> Is(th.pc, k));
    WithOrWithout(m, m', p);
  }

  /** Those in a queue are of the kind; so the count and the members leave something for whoever is not queued. */
  lemma Unqueued(ts: map<Pid, Thread>, k: Kind, sem: Sem<Pid>)
    requires GoodSem(sem) && NoRepeats(sem.queue) && forall q | q in sem.queue :: q in Members(ts, k)
    ensures |Members(ts, k) - Elements(sem.queue)| + (if sem.count > 0 then sem.count else 0)
      == sem.count + |Members(ts, k)|
  {
    QueueSize(sem.queue);
    assert Elements(sem.queue) <= Members(ts, k);
    assert Members(ts, k) == (Members(ts, k) - Elements(sem.queue)) + Elements(sem.queue);
  }

  // -- the invariant ----------------------------------------------------------

  /** Where a thread that waits for a token is. */
  predicate AfterWait(pc: Pc, k: Kind) {
    match k
    case UsesLock => pc.WStore? || pc.RLoad?
    case HasByte => pc.RLock?
    case HasRoom => pc.WLock?
  }

  ghost predicate QueueOf(ts: map<Pid, Thread>, sem: Sem<Pid>, k: Kind) {
    && GoodSem(sem) && NoRepeats(sem.queue)
    && forall p | p in sem.queue :: p in ts && AfterWait(ts[p].pc, k)
  }

  ghost predicate Queues(s: State) {
    && QueueOf(s.threads, s.lock, UsesLock) && QueueOf(s.threads, s.empty, HasRoom) && QueueOf(s.threads, s.full, HasByte)
  }

  /** Bytes in the pipe. */
  function Filled(s: State): int {
    |s.written| - |s.taken|
  }

  ghost predicate Counts(s: State) {
    && s.lock.count == 1 - |Members(s.threads, UsesLock)|
    && Filled(s) == s.full.count + |Members(s.threads, HasByte)|
    && |s.buffer| - Filled(s) == s.empty.count + |Members(s.threads, HasRoom)|
  }

  /** Bytes come out as they went in, and those not taken out yet are still in their slots. */
  ghost predicate Stored(s: State) {
    && |s.buffer| > 0
    && s.readPos == |s.taken| % |s.buffer| && s.writePos == |s.written| % |s.buffer|
    && 0 <= Filled(s) <= |s.buffer|
    && (forall k | 0 <= k < |s.taken| :: s.taken[k].value == s.written[k].value)
    && (forall k | |s.taken| <= k < |s.written| :: s.buffer[k % |s.buffer|] == s.written[k].value)
  }

  ghost predicate InCall(s: State, th: Thread) {
    && (th.pc.WWait? || th.pc.WLock? || th.pc.WStore? || th.pc.WAdvance? || th.pc.WUnlock? || th.pc.WSignal? ==> th.i < |th.data|)
    && (th.pc.TStore? ==> th.i < |th.data|)
    && (th.pc.WAdvance? ==> s.writePos < |s.buffer| && s.buffer[s.writePos] == th.data[th.i])
    && (th.pc.RAdvance? ==> th.out != [] && s.readPos < |s.buffer| && th.out[|th.out| - 1] == s.buffer[s.readPos])
  }

  ghost predicate Inv(s: State) {
    && Stored(s) && Queues(s) && Counts(s)
    && forall p | p in s.threads :: InCall(s, s.threads[p])
  }

  // -- slots of the ring ------------------------------------------------------

  lemma {:induction false} MulGap(len: nat, a: nat, b: nat)
    requires a < b
    ensures len * a + len <= len * b
    decreases b - a
  {
    if a + 1 < b {
      MulGap(len, a, b - 1);
    }
    assert len * b == len * (b - 1) + len;
  }

  lemma SlotIs(n: nat, len: nat, q: nat, r: nat)
    requires r < len && n == len * q + r
    ensures n % len == r
  {
    var q' := n / len;
    assert n == len * q' + n % len;
    if q' > q {
      MulGap(len, q, q');
    } else if q' < q {
      MulGap(len, q', q);
    }
  }

  lemma NextSlot(n: nat, len: nat)
    requires len > 0
    ensures (n % len + 1) % len == (n + 1) % len
  {
    var q, r := n / len, n % len;
    assert n == len * q + r;
    if r + 1 < len {
      SlotIs(n + 1, len, q, r + 1);
      SlotIs(r + 1, len, 0, r + 1);
    } else {
      assert len * (q + 1) == len * q + len;
      SlotIs(n + 1, len, q + 1, 0);
      SlotIs(r + 1, len, 1, 0);
    }
  }

  /** Positions less than a round apart are different slots. */
  lemma SlotsDiffer(a: nat, b: nat, len: nat)
    requires a < b < a + len
    ensures a % len != b % len
  {
    var qa, qb := a / len, b / len;
    assert a == len * qa + a % len && b == len * qb + b % len;
    if qa < qb {
      MulGap(len, qa, qb);
    } else if qb < qa {
      MulGap(len, qb, qa);
    }
  }

  // -- what the invariant gives a thread that can move -------------------------

  /** Whoever has a token of `empty` finds room. */
  lemma RoomForHolder(s: State, p: Pid)
    requires Queues(s) && Counts(s) && p in s.threads && Is(s.threads[p].pc, HasRoom) && p !in s.empty.queue
    ensures Filled(s) < |s.buffer|
  {
    Unqueued(s.threads, HasRoom, s.empty);
    assert p in Members(s.threads, HasRoom) - Elements(s.empty.queue);
  }

  /** Two that have one each find room for two. */
  lemma RoomForTwo(s: State, p: Pid, q: Pid)
    requires Queues(s) && Counts(s) && p != q && p in s.threads && q in s.threads
    requires Is(s.threads[p].pc, HasRoom) && p !in s.empty.queue && Is(s.threads[q].pc, HasRoom) && q !in s.empty.queue
    ensures Filled(s) + 1 < |s.buffer|
  {
    Unqueued(s.threads, HasRoom, s.empty);
    var holders := Members(s.threads, HasRoom) - Elements(s.empty.queue);
    assert p in holders && q in holders - {p};
    assert |holders - {p}| == |holders| - 1;
  }

  /** Whoever has a token of `full` finds a byte. */
  lemma ByteForHolder(s: State, p: Pid)
    requires Queues(s) && Counts(s) && p in s.threads && Is(s.threads[p].pc, HasByte) && p !in s.full.queue
    ensures Filled(s) > 0
  {
    Unqueued(s.threads, HasByte, s.full);
    assert p in Members(s.threads, HasByte) - Elements(s.full.queue);
  }

  /** Mutual exclusion: two threads past the lock's wait and not queued on it are one thread. */
  lemma OneHolder(s: State, p: Pid, q: Pid)
    requires Queues(s) && Counts(s) && p in s.threads && q in s.threads
    requires Is(s.threads[p].pc, UsesLock) && Is(s.threads[q].pc, UsesLock)
    requires p !in s.lock.queue && q !in s.lock.queue
    ensures p == q
  {
    Unqueued(s.threads, UsesLock, s.lock);
    var holders := Members(s.threads, UsesLock) - Elements(s.lock.queue);
    assert p in holders && q in holders;
    AtMostOne(holders, p, q);
  }

  // -- every step keeps the invariant ------------------------------------------

  lemma QueueKept(ts: map<Pid, Thread>, sem: Sem<Pid>, k: Kind, p: Pid, th: Thread)
    requires QueueOf(ts, sem, k) && p !in sem.queue
    ensures QueueOf(ts[p := th], sem, k) && QueueOf(ts[p := th], TryWait(sem).0, k) && QueueOf(ts[p := th], Signal(sem), k)
    ensures AfterWait(th.pc, k) ==> QueueOf(ts[p := th], Wait(sem, p), k)
  {}

  ghost predicate Moves(sem: Sem<Pid>, sem': Sem<Pid>, k: Kind, p: Pid, after: Pc) {
    sem' == sem || (sem' == Wait(sem, p) && AfterWait(after, k)) || sem' == TryWait(sem).0 || sem' == Signal(sem)
  }

  lemma StepThreads(s: State, p: Pid, a: Act)
    requires Enabled(s, p, a)
    ensures var t := Step(s, p, a);
      |t.buffer| == |s.buffer| && p in t.threads && t.threads == s.threads[p := t.threads[p]]
  {
    assert s.threads[p := s.threads[p]] == s.threads;
  }

  lemma StepSems(s: State, p: Pid, a: Act)
    requires Enabled(s, p, a)
    ensures var t := Step(s, p, a);
      && Moves(s.lock, t.lock, UsesLock, p, t.threads[p].pc)
      && Moves(s.empty, t.empty, HasRoom, p, t.threads[p].pc)
      && Moves(s.full, t.full, HasByte, p, t.threads[p].pc)
  {}

  /** A token leaves its semaphore exactly when it comes to a thread, or to or from a slot. */
  ghost predicate Balanced(s: State, t: State, p: Pid)
    requires p in s.threads && p in t.threads
  {
    var pc, pc' := s.threads[p].pc, t.threads[p].pc;
    && t.lock.count + One(Is(pc', UsesLock)) == s.lock.count + One(Is(pc, UsesLock))
    && t.full.count + One(Is(pc', HasByte)) - Filled(t) == s.full.count + One(Is(pc, HasByte)) - Filled(s)
    && t.empty.count + One(Is(pc', HasRoom)) + Filled(t) == s.empty.count + One(Is(pc, HasRoom)) + Filled(s)
  }

  lemma Balances(s: State, p: Pid, a: Act)
    requires Enabled(s, p, a)
    ensures Balanced(s, Step(s, p, a), p)
  {
    if !a.Continue? {
      BalancesAtStart(s, p, a);
    } else if Reading(s.threads[p].pc) {
      ReadBalances(s, p);
    } else {
      WriteBalances(s, p);
    }
  }

  lemma BalancesAtStart(s: State, p: Pid, a: Act)
    requires Enabled(s, p, a) && !a.Continue?
    ensures Balanced(s, Step(s, p, a), p)
  {}

  lemma ReadBalances(s: State, p: Pid)
    requires Enabled(s, p, Continue) && Reading(s.threads[p].pc)
    ensures Balanced(s, Step(s, p, Continue), p)
  {}

  lemma WriteBalances(s: State, p: Pid)
    requires Enabled(s, p, Continue) && !Reading(s.threads[p].pc)
    ensures Balanced(s, Step(s, p, Continue), p)
  {}

  lemma QueuesKept(s: State, p: Pid, a: Act)
    requires Queues(s) && Enabled(s, p, a)
    ensures Queues(Step(s, p, a))
  {
    var t := Step(s, p, a);
    StepThreads(s, p, a);
    StepSems(s, p, a);
    QueueKept(s.threads, s.lock, UsesLock, p, t.threads[p]);
    QueueKept(s.threads, s.empty, HasRoom, p, t.threads[p]);
    QueueKept(s.threads, s.full, HasByte, p, t.threads[p]);
  }

  lemma CountsKept(s: State, p: Pid, a: Act)
    requires Counts(s) && Enabled(s, p, a)
    ensures Counts(Step(s, p, a))
  {
    var t := Step(s, p, a);
    StepThreads(s, p, a);
    Balances(s, p, a);
    MembersAfter(s.threads, p, t.threads[p], UsesLock);
    MembersAfter(s.threads, p, t.threads[p], HasByte);
    MembersAfter(s.threads, p, t.threads[p], HasRoom);
  }

  /** What a step at `pc` of thread `p` does to the ring and the histories. */
  ghost predicate RingStep(s: State, t: State, p: Pid, th: Thread) {
    && s.writePos < |s.buffer| && s.readPos < |s.buffer|
    && (th.pc.WStore? || th.pc.TStore? ==> th.i < |th.data|) && (th.pc.RAdvance? ==> th.out != [])
    && t.buffer == (if th.pc.WStore? || th.pc.TStore? then s.buffer[s.writePos := th.data[th.i]] else s.buffer)
    && (if th.pc.WAdvance? || th.pc.TStore? then
          && t.writePos == (s.writePos + 1) % |s.buffer| && t.written == s.written + [Item(p, t.buffer[s.writePos])]
        else t.writePos == s.writePos && t.written == s.written)
    && (if th.pc.RAdvance? then
          && t.readPos == (s.readPos + 1) % |s.buffer| && t.taken == s.taken + [Item(p, th.out[|th.out| - 1])]
        else t.readPos == s.readPos && t.taken == s.taken)
  }

  lemma StepRing(s: State, p: Pid, a: Act)
    requires Enabled(s, p, a)
    ensures RingStep(s, Step(s, p, a), p, s.threads[p])
  {}

  lemma StoredKept(s: State, p: Pid, a: Act)
    requires Inv(s) && Enabled(s, p, a)
    ensures Stored(Step(s, p, a))
  {
    var pc := s.threads[p].pc;
    if Is(pc, HasRoom) {
      RoomForHolder(s, p);
    }
    if Is(pc, HasByte) {
      ByteForHolder(s, p);
    }
    StepRing(s, p, a);
    assert InCall(s, s.threads[p]);
    RingKept(s, Step(s, p, a), p, s.threads[p]);
  }

  lemma RingKept(s: State, t: State, p: Pid, th: Thread)
    requires Stored(s) && RingStep(s, t, p, th) && InCall(s, th)
    requires Is(th.pc, HasRoom) ==> Filled(s) < |s.buffer|
    requires Is(th.pc, HasByte) ==> Filled(s) > 0
    ensures Stored(t)
  {
    if Is(th.pc, HasRoom) {
      WriteSlotFree(s);
    }
    NextSlot(|s.written|, |s.buffer|);
    NextSlot(|s.taken|, |s.buffer|);
  }

  /** The slot at the write position holds no byte still to be taken. */
  lemma WriteSlotFree(s: State)
    requires Stored(s) && Filled(s) < |s.buffer|
    ensures forall k | |s.taken| <= k < |s.written| :: k % |s.buffer| != s.writePos
  {
    forall k | |s.taken| <= k < |s.written| ensures k % |s.buffer| != s.writePos {
      SlotsDiffer(k, |s.written|, |s.buffer|);
    }
  }

  /** No other thread's byte is disturbed between its store or load and its position update. */
  lemma OthersInCall(s: State, p: Pid, a: Act, q: Pid)
    requires Inv(s) && Enabled(s, p, a) && q in s.threads && q != p
    requires s.threads[p].pc.TStore? ==> NoWriterMidway(s)
    ensures InCall(Step(s, p, a), s.threads[q])
  {
    assert InCall(s, s.threads[q]);
    var pc, other := s.threads[p].pc, s.threads[q].pc;
    if other.WAdvance? || other.RAdvance? {
      assert q !in s.lock.queue;
      if Is(pc, UsesLock) {
        OneHolder(s, p, q);
      }
    }
    if other.RAdvance? && pc.TStore? {
      assert q !in s.full.queue;
      ByteForHolder(s, q);
      RoomForHolder(s, p);
      SlotsDiffer(|s.taken|, |s.written|, |s.buffer|);
    }
  }

  lemma OwnInCall(s: State, p: Pid, a: Act)
    requires Inv(s) && Enabled(s, p, a)
    ensures InCall(Step(s, p, a), Step(s, p, a).threads[p])
  {
    assert InCall(s, s.threads[p]);
    if !a.Continue? {
      OwnBegins(s, p, a);
    } else if Reading(s.threads[p].pc) {
      OwnReads(s, p);
    } else {
      OwnWrites(s, p);
    }
  }

  lemma OwnBegins(s: State, p: Pid, a: Act)
    requires Enabled(s, p, a) && !a.Continue? && InCall(s, s.threads[p])
    ensures InCall(Step(s, p, a), Step(s, p, a).threads[p])
  {}

  lemma OwnReads(s: State, p: Pid)
    requires Enabled(s, p, Continue) && InCall(s, s.threads[p]) && Reading(s.threads[p].pc)
    ensures InCall(Step(s, p, Continue), Step(s, p, Continue).threads[p])
  {}

  lemma OwnWrites(s: State, p: Pid)
    requires Enabled(s, p, Continue) && InCall(s, s.threads[p]) && !Reading(s.threads[p].pc)
    ensures InCall(Step(s, p, Continue), Step(s, p, Continue).threads[p])
  {}

  /**
    Every step keeps the invariant, a byte stored by an interrupt handler included,
    unless that interrupts a writer between its store and its position update.
   */
  lemma StepKeeps(s: State, p: Pid, a: Act)
    requires Inv(s) && Enabled(s, p, a)
    requires s.threads[p].pc.TStore? ==> NoWriterMidway(s)
    ensures Inv(Step(s, p, a))
  {
    var t := Step(s, p, a);
    QueuesKept(s, p, a);
    CountsKept(s, p, a);
    StoredKept(s, p, a);
    StepThreads(s, p, a);
    forall q | q in t.threads ensures InCall(t, t.threads[q]) {
      if q == p {
        OwnInCall(s, p, a);
      } else {
        OthersInCall(s, p, a, q);
      }
    }
  }

  // -- calls put in and hand out what they should -------------------------------

  /** How far the call under way has got: bytes whose position update is done. */
  function Done(th: Thread): nat {
    if th.pc.WUnlock? || th.pc.WSignal? || th.pc.TSignal? || th.pc.RUnlock? || th.pc.RSignal? then th.i + 1 else th.i
  }

  predicate Writing(pc: Pc) {
    pc.WWait? || pc.WLock? || pc.WStore? || pc.WAdvance? || pc.WUnlock? || pc.WSignal? || pc.TStore? || pc.TSignal?
  }

  predicate Reading(pc: Pc) {
    pc.RWait? || pc.RLock? || pc.RLoad? || pc.RAdvance? || pc.RUnlock? || pc.RSignal?
  }

  /** A write under way has put in a prefix of its data. */
  ghost predicate WroteSoFar(th: Thread) {
    Writing(th.pc) ==> th.i < |th.data| && th.sent == th.base + th.data[..Done(th)]
  }

  /** A read under way has received exactly what its buffer holds up to the byte being loaded. */
  ghost predicate ReadSoFar(th: Thread) {
    Reading(th.pc) ==>
      && th.i < th.len && |th.out| == Done(th) + One(th.pc.RAdvance?)
      && th.got == th.base + th.out[..Done(th)]
  }

  lemma WroteKept(s: State, p: Pid, a: Act)
    requires Enabled(s, p, a) && WroteSoFar(s.threads[p])
    ensures WroteSoFar(Step(s, p, a).threads[p])
  {
    if a.Continue? && Writing(s.threads[p].pc) {
      WriteGoesOn(s, p);
    }
  }

  lemma WriteGoesOn(s: State, p: Pid)
    requires Enabled(s, p, Continue) && Writing(s.threads[p].pc) && WroteSoFar(s.threads[p])
    ensures WroteSoFar(Step(s, p, Continue).threads[p])
  {
    var th := s.threads[p];
    if th.pc.WAdvance? || th.pc.TStore? {
      assert th.data[..th.i + 1] == th.data[..th.i] + [th.data[th.i]];
      assert th.base + th.data[..th.i] + [th.data[th.i]] == th.base + th.data[..th.i + 1];
    }
  }

  lemma ReadKept(s: State, p: Pid, a: Act)
    requires Enabled(s, p, a) && ReadSoFar(s.threads[p])
    ensures ReadSoFar(Step(s, p, a).threads[p])
  {
    if a.Continue? && Reading(s.threads[p].pc) {
      ReadGoesOn(s, p);
    }
  }

  lemma ReadGoesOn(s: State, p: Pid)
    requires Enabled(s, p, Continue) && Reading(s.threads[p].pc) && ReadSoFar(s.threads[p])
    ensures ReadSoFar(Step(s, p, Continue).threads[p])
  {
    var th := s.threads[p];
    if th.pc.RAdvance? {
      assert th.out == th.out[..th.i] + [th.out[|th.out| - 1]];
      assert th.base + th.out[..th.i] + [th.out[|th.out| - 1]] == th.base + th.out[..th.i + 1];
    }
    if th.pc.RLoad? {
      var v := s.buffer[s.readPos];
      assert (th.out + [v])[..th.i] == th.out[..th.i];
    }
  }

  /** A write that returns has put in all its data; a read that returns has handed out just what it received. */
  lemma CallsComplete(s: State, p: Pid, a: Act)
    requires Enabled(s, p, a) && Step(s, p, a).threads[p].pc.Idle?
    requires WroteSoFar(s.threads[p]) && ReadSoFar(s.threads[p])
    ensures s.threads[p].pc.WSignal? ==> s.threads[p].sent == s.threads[p].base + s.threads[p].data
    ensures Reading(s.threads[p].pc) ==>
      var th := Step(s, p, a).threads[p]; th.got == th.base + th.out && th.i == |th.out| <= th.len
  {
    var th := s.threads[p];
    assert th.pc.WSignal? ==> th.data[..th.i + 1] == th.data;
    assert Reading(th.pc) ==> th.out[..|th.out|] == th.out;
  }

  // -- order ------------------------------------------------------------------

  /** What one thread has put in or taken out, in order. */
  function Of(items: seq<Item>, p: Pid): seq<byte> {
    if items == [] then [] else
      var last := items[|items| - 1];
      Of(items[..|items| - 1], p) + if last.pid == p then [last.value] else []
  }

  lemma OfMore(items: seq<Item>, item: Item, p: Pid)
    ensures Of(items + [item], p) == if item.pid == p then Of(items, p) + [item.value] else Of(items, p)
  {
    assert (items + [item])[..|items|] == items;
    assert Of(items, p) + [] == Of(items, p);
  }

  function Values(items: seq<Item>): seq<byte> {
    seq(|items|, k requires 0 <= k < |items| => items[k].value)
  }

  /** Each thread's bytes are in the pipe's history in the order the thread meant them. */
  ghost predicate Ordered(s: State) {
    forall p | p in s.threads :: Of(s.written, p) == s.threads[p].sent && Of(s.taken, p) == s.threads[p].got
  }

  /** What a step adds to the histories, and to the thread's own account. */
  lemma StepHistory(s: State, p: Pid, a: Act)
    requires Enabled(s, p, a) && InCall(s, s.threads[p])
    ensures var t, th := Step(s, p, a), s.threads[p];
      if th.pc.WAdvance? || th.pc.TStore? then
        && t.written == s.written + [Item(p, th.data[th.i])] && t.threads[p].sent == th.sent + [th.data[th.i]]
      else t.written == s.written && t.threads[p].sent == th.sent
    ensures var t, th := Step(s, p, a), s.threads[p];
      if th.pc.RAdvance? then
        && t.taken == s.taken + [Item(p, th.out[|th.out| - 1])] && t.threads[p].got == th.got + [th.out[|th.out| - 1]]
      else t.taken == s.taken && t.threads[p].got == th.got
  {}

  lemma OrderKept(s: State, p: Pid, a: Act)
    requires Inv(s) && Ordered(s) && Enabled(s, p, a)
    ensures Ordered(Step(s, p, a))
  {
    var t, th := Step(s, p, a), s.threads[p];
    StepThreads(s, p, a);
    StepHistory(s, p, a);
    forall q | q in t.threads
      ensures Of(t.written, q) == t.threads[q].sent && Of(t.taken, q) == t.threads[q].got
    {
      if th.pc.WAdvance? || th.pc.TStore? {
        OfMore(s.written, Item(p, th.data[th.i]), q);
      }
      if th.pc.RAdvance? {
        OfMore(s.taken, Item(p, th.out[|th.out| - 1]), q);
      }
    }
  }

  // -- runs -------------------------------------------------------------------

  datatype Move = Move(pid: Pid, act: Act)

  ghost predicate Run(states: seq<State>, moves: seq<Move>) {
    && |states| == |moves| + 1
    && forall i | 0 <= i < |moves| ::
         && Enabled(states[i], moves[i].pid, moves[i].act)
         && states[i + 1] == Step(states[i], moves[i].pid, moves[i].act)
  }

  /** A reader waits for its first byte only; for the others it takes what is there. */
  ghost predicate WaitsForFirst(s: State) {
    forall p | p in s.full.queue :: p in s.threads && s.threads[p].pc.RLock? && s.threads[p].i == 0
  }

  lemma WaitsForFirstKept(s: State, p: Pid, a: Act)
    requires Inv(s) && WaitsForFirst(s) && Enabled(s, p, a)
    ensures WaitsForFirst(Step(s, p, a))
  {
    var t := Step(s, p, a);
    StepThreads(s, p, a);
    forall q | q in t.full.queue && q !in s.full.queue ensures q == p && t.threads[p].pc.RLock? && t.threads[p].i == 0 {
      FullQueueGrows(s, p, a, q);
    }
  }

  lemma FullQueueGrows(s: State, p: Pid, a: Act, q: Pid)
    requires Enabled(s, p, a) && q in Step(s, p, a).full.queue && q !in s.full.queue
    ensures q == p && Step(s, p, a).threads[p].pc.RLock? && Step(s, p, a).threads[p].i == 0
  {}

  /** All that holds in every state: `Inv`, the order of bytes, the calls' own accounts, and who waits for bytes. */
  ghost predicate Sound(s: State) {
    && Inv(s) && Ordered(s) && WaitsForFirst(s)
    && forall p | p in s.threads :: WroteSoFar(s.threads[p]) && ReadSoFar(s.threads[p])
  }

  /** A new pipe is sound exactly when it has a byte of room and its length is a positive `int`. */
  lemma CreateSound(buffer: seq<byte>, pids: set<Pid>)
    ensures Sound(Create(buffer, pids)) <==> 0 < |buffer| < 0x8000_0000
  {
    var s := Create(buffer, pids);
    assert Members(s.threads, UsesLock) == {};
    assert Members(s.threads, HasByte) == {};
    assert Members(s.threads, HasRoom) == {};
  }

  lemma SoundKept(s: State, p: Pid, a: Act)
    requires Sound(s) && Enabled(s, p, a)
    requires s.threads[p].pc.TStore? ==> NoWriterMidway(s)
    ensures Sound(Step(s, p, a))
  {
    StepKeeps(s, p, a);
    OrderKept(s, p, a);
    WaitsForFirstKept(s, p, a);
    StepThreads(s, p, a);
    WroteKept(s, p, a);
    ReadKept(s, p, a);
  }

  predicate NoTryWrite(moves: seq<Move>) {
    forall m | m in moves :: !m.act.TryWrite?
  }

  predicate NoWrite(moves: seq<Move>) {
    forall m | m in moves :: !m.act.Write?
  }

  /**
    How the pipe is used: either only by `pipe_write`, or, as the keyboard does, only
    by `pipe_try_write`, on the writing side.
   */
  predicate OneWay(moves: seq<Move>) {
    NoTryWrite(moves) || NoWrite(moves)
  }

  /** Inside `pipe_write`. */
  predicate Locked(pc: Pc) {
    pc.WWait? || pc.WLock? || pc.WStore? || pc.WAdvance? || pc.WUnlock? || pc.WSignal?
  }

  predicate NoLocked(s: State) {
    forall p | p in s.threads :: !Locked(s.threads[p].pc)
  }

  predicate NoHandler(s: State) {
    forall p | p in s.threads :: !s.threads[p].pc.TStore?
  }

  lemma PcAfter(s: State, p: Pid, a: Act)
    requires Enabled(s, p, a)
    ensures Step(s, p, a).threads[p].pc.TStore? ==> a.TryWrite?
    ensures Locked(Step(s, p, a).threads[p].pc) ==> a.Write? || Locked(s.threads[p].pc)
  {}

  lemma StaysNoLocked(s: State, p: Pid, a: Act)
    requires Enabled(s, p, a) && NoLocked(s) && !a.Write?
    ensures NoLocked(Step(s, p, a))
  {
    StepThreads(s, p, a);
    PcAfter(s, p, a);
  }

  lemma StaysNoHandler(s: State, p: Pid, a: Act)
    requires Enabled(s, p, a) && NoHandler(s) && !a.TryWrite?
    ensures NoHandler(Step(s, p, a))
  {
    StepThreads(s, p, a);
    PcAfter(s, p, a);
  }

  lemma RunFront(states: seq<State>, moves: seq<Move>)
    requires Run(states, moves) && moves != []
    ensures var n := |moves| - 1;
      && Run(states[..n + 1], moves[..n]) && Enabled(states[n], moves[n].pid, moves[n].act)
      && states[n + 1] == Step(states[n], moves[n].pid, moves[n].act)
  {}

  lemma OneWayFront(moves: seq<Move>)
    requires OneWay(moves) && moves != []
    ensures OneWay(moves[..|moves| - 1])
    ensures NoTryWrite(moves) ==> NoTryWrite(moves[..|moves| - 1]) && !moves[|moves| - 1].act.TryWrite?
    ensures NoWrite(moves) ==> NoWrite(moves[..|moves| - 1]) && !moves[|moves| - 1].act.Write?
  {}

  lemma {:induction false} RunSound(states: seq<State>, moves: seq<Move>, buffer: seq<byte>, pids: set<Pid>)
    requires Run(states, moves) && OneWay(moves) && 0 < |buffer| < 0x8000_0000 && states[0] == Create(buffer, pids)
    ensures Sound(states[|moves|])
    ensures NoTryWrite(moves) ==> NoHandler(states[|moves|])
    ensures NoWrite(moves) ==> NoLocked(states[|moves|])
  {
    if moves == [] {
      CreateSound(buffer, pids);
    } else {
      var n := |moves| - 1;
      var s, m := states[n], moves[n];
      RunFront(states, moves);
      OneWayFront(moves);
      RunSound(states[..n + 1], moves[..n], buffer, pids);
      SoundKept(s, m.pid, m.act);
      if NoTryWrite(moves) {
        StaysNoHandler(s, m.pid, m.act);
      }
      if NoWrite(moves) {
        StaysNoLocked(s, m.pid, m.act);
      }
    }
  }

  /**
    FIFO: in every state of every such run the bytes taken out are a prefix of the
    bytes put in, each writer's bytes are there in the order it sent them, and each
    reader got the bytes it took in the order it took them.
   */
  lemma PipeIsFifo(states: seq<State>, moves: seq<Move>, buffer: seq<byte>, pids: set<Pid>, p: Pid)
    requires Run(states, moves) && OneWay(moves) && 0 < |buffer| < 0x8000_0000 && states[0] == Create(buffer, pids)
    ensures var s := states[|moves|];
      && Values(s.taken) <= Values(s.written)
      && (p in s.threads ==> Of(s.written, p) == s.threads[p].sent && Of(s.taken, p) == s.threads[p].got)
  {
    RunSound(states, moves, buffer, pids);
    var s := states[|moves|];
    assert Values(s.taken) == Values(s.written)[..|s.taken|];
  }

  // -- whole calls --------------------------------------------------------------

  /** Thread `p` is inside a call in all states behind `i` and before `j`. */
  ghost predicate Calling(states: seq<State>, p: Pid, i: nat, j: nat) {
    j <= |states| && forall k | i < k < j :: p in states[k].threads && !states[k].threads[p].pc.Idle?
  }

  /** The thread is in, or has come to the end of, a write of `data` that began when `base` had been sent. */
  ghost predicate InWrite(th: Thread, data: seq<byte>, base: seq<byte>) {
    if th.pc.Idle? then th.sent == base + data
    else Locked(th.pc) && th.data == data && th.base == base && WroteSoFar(th)
  }

  lemma WriteTurn(s: State, p: Pid, data: seq<byte>, base: seq<byte>)
    requires Enabled(s, p, Continue) && InWrite(s.threads[p], data, base)
    ensures InWrite(Step(s, p, Continue).threads[p], data, base)
  {
    WriteGoesOn(s, p);
    var th, next := s.threads[p], Step(s, p, Continue).threads[p];
    if th.pc.WSignal? {
      assert th.data[..th.i + 1] == if th.i + 1 < |th.data| then th.data[..th.i + 1] else th.data;
    }
  }

  /** A read of at most `len` bytes, in the same way; `dry`: the last step found no byte. */
  ghost predicate InRead(th: Thread, len: nat, base: seq<byte>, dry: bool) {
    && th.i <= th.len == len && (th.pc.Idle? ==> 0 < th.i == |th.out| && th.got == base + th.out && (th.i < len ==> dry))
    && (!th.pc.Idle? ==> Reading(th.pc) && th.base == base && ReadSoFar(th))
  }

  lemma ReadTurn(s: State, p: Pid, len: nat, base: seq<byte>, dry: bool)
    requires Enabled(s, p, Continue) && InRead(s.threads[p], len, base, dry)
    ensures InRead(Step(s, p, Continue).threads[p], len, base, s.full.count <= 0)
  {
    ReadKept(s, p, Continue);
    var th := s.threads[p];
    assert th.out[..|th.out|] == th.out;
  }

  /** A try-write of one byte that has its token. */
  ghost predicate InTry(th: Thread, value: byte, base: seq<byte>) {
    if th.pc.TStore? then th.data == [value] && th.i == 0 && th.sent == base
    else (th.pc.TSignal? || th.pc.Idle?) && th.sent == base + [value]
  }

  /** The steps of others leave the thread as it is. */
  lemma OthersStep(s: State, p: Pid, q: Pid, a: Act)
    requires Enabled(s, q, a) && q != p && p in s.threads
    ensures p in Step(s, q, a).threads && Step(s, q, a).threads[p] == s.threads[p]
  {
    StepThreads(s, q, a);
  }

  lemma {:induction false} WriteGoesThrough(states: seq<State>, moves: seq<Move>, p: Pid, data: seq<byte>, i: nat, j: nat)
    requires Run(states, moves) && i < j <= |moves| && moves[i] == Move(p, Write(data)) && Calling(states, p, i, j)
    ensures p in states[i].threads && p in states[j].threads
    ensures InWrite(states[j].threads[p], data, states[i].threads[p].sent)
    decreases j
  {
    var k := j - 1;
    var s, m := states[k], moves[k];
    assert Enabled(s, m.pid, m.act) && states[k + 1] == Step(s, m.pid, m.act);
    if k > i {
      WriteGoesThrough(states, moves, p, data, i, k);
      if m.pid == p {
        WriteTurn(s, p, data, states[i].threads[p].sent);
      } else {
        OthersStep(s, p, m.pid, m.act);
      }
    } else {
      assert s.threads[p].sent + data[..0] == s.threads[p].sent;
      assert data == [] ==> s.threads[p].sent + data == s.threads[p].sent;
    }
  }

  /** A write that returns has put in exactly the bytes it was called with, behind what the thread had sent before. */
  lemma WritePutsInAll(states: seq<State>, moves: seq<Move>, p: Pid, data: seq<byte>, i: nat, j: nat)
    requires Run(states, moves) && i < j <= |moves| && moves[i] == Move(p, Write(data)) && Calling(states, p, i, j)
    requires p in states[j].threads && states[j].threads[p].pc.Idle?
    ensures p in states[i].threads && states[j].threads[p].sent == states[i].threads[p].sent + data
  {
    WriteGoesThrough(states, moves, p, data, i, j);
  }

  lemma {:induction false} TryGoesThrough(states: seq<State>, moves: seq<Move>, p: Pid, value: byte, i: nat, j: nat)
    requires Run(states, moves) && i < j <= |moves| && moves[i] == Move(p, TryWrite(value)) && Calling(states, p, i, j)
    requires states[i].empty.count > 0
    ensures p in states[i].threads && p in states[j].threads
    ensures InTry(states[j].threads[p], value, states[i].threads[p].sent)
    decreases j
  {
    var k := j - 1;
    var s, m := states[k], moves[k];
    assert Enabled(s, m.pid, m.act) && states[k + 1] == Step(s, m.pid, m.act);
    if k > i {
      TryGoesThrough(states, moves, p, value, i, k);
      if m.pid != p {
        OthersStep(s, p, m.pid, m.act);
      }
    }
  }

  /** A try-write puts in its byte exactly when there is room at once; otherwise it changes nothing at all. */
  lemma TryWritePutsInOne(states: seq<State>, moves: seq<Move>, p: Pid, value: byte, i: nat, j: nat)
    requires Run(states, moves) && i < j <= |moves| && moves[i] == Move(p, TryWrite(value)) && Calling(states, p, i, j)
    requires p in states[j].threads && states[j].threads[p].pc.Idle?
    ensures p in states[i].threads
    ensures if states[i].empty.count > 0 then states[j].threads[p].sent == states[i].threads[p].sent + [value]
            else j == i + 1 && states[j] == states[i]
  {
    assert Enabled(states[i], p, TryWrite(value)) && states[i + 1] == Step(states[i], p, TryWrite(value));
    if states[i].empty.count > 0 {
      TryGoesThrough(states, moves, p, value, i, j);
    }
  }

  lemma {:induction false} ReadGoesThrough(states: seq<State>, moves: seq<Move>, p: Pid, len: nat, i: nat, j: nat)
    requires Run(states, moves) && i < j <= |moves| && moves[i] == Move(p, Read(len)) && Calling(states, p, i, j) && len > 0
    ensures p in states[i].threads && p in states[j].threads
    ensures InRead(states[j].threads[p], len, states[i].threads[p].got, states[j - 1].full.count <= 0)
    decreases j
  {
    var k := j - 1;
    var s, m := states[k], moves[k];
    assert Enabled(s, m.pid, m.act) && states[k + 1] == Step(s, m.pid, m.act);
    if k > i {
      ReadGoesThrough(states, moves, p, len, i, k);
      if m.pid == p {
        ReadTurn(s, p, len, states[i].threads[p].got, states[k - 1].full.count <= 0);
      } else {
        OthersStep(s, p, m.pid, m.act);
      }
    } else {
      assert s.threads[p].got + [] == s.threads[p].got;
    }
  }

  /**
    A read that returns has received from one byte to as many as it was called for, and
    fewer than that only if there was none at the moment it stopped.
   */
  lemma ReadTakesSome(states: seq<State>, moves: seq<Move>, p: Pid, len: nat, i: nat, j: nat)
    requires Run(states, moves) && i < j <= |moves| && moves[i] == Move(p, Read(len)) && Calling(states, p, i, j)
    requires p in states[j].threads && states[j].threads[p].pc.Idle?
    ensures p in states[i].threads
    ensures len == 0 ==> j == i + 1 && states[j] == states[i]
    ensures len > 0 ==>
      var th := states[j].threads[p];
      && th.got == states[i].threads[p].got + th.out && th.i == |th.out| && 1 <= |th.out| <= len
      && (|th.out| < len ==> states[j - 1].full.count <= 0)
  {
    assert Enabled(states[i], p, Read(len)) && states[i + 1] == Step(states[i], p, Read(len));
    if len > 0 {
      ReadGoesThrough(states, moves, p, len, i, j);
    }
  }

  /** In no state of a run does a reader wait that has received a byte in the call it is in. */
  lemma WaitsForFirstOnly(states: seq<State>, moves: seq<Move>, buffer: seq<byte>, pids: set<Pid>, p: Pid, len: nat, i: nat, j: nat)
    requires Run(states, moves) && OneWay(moves) && 0 < |buffer| < 0x8000_0000 && states[0] == Create(buffer, pids)
    requires i < j <= |moves| && moves[i] == Move(p, Read(len)) && Calling(states, p, i, j) && len > 0
    ensures p in states[i].threads && p in states[j].threads
    ensures p in states[j].full.queue ==> states[j].threads[p].got == states[i].threads[p].got
  {
    SoundAt(states, moves, buffer, pids, j);
    ReadGoesThrough(states, moves, p, len, i, j);
    if p in states[j].full.queue {
      assert states[j].threads[p].base + [] == states[j].threads[p].base;
    }
  }

  /** And in the pipe itself: the bytes of a write that returned are there, as given, behind the thread's earlier ones. */
  lemma WriteArrives(states: seq<State>, moves: seq<Move>, buffer: seq<byte>, pids: set<Pid>, p: Pid, data: seq<byte>, i: nat, j: nat)
    requires Run(states, moves) && OneWay(moves) && 0 < |buffer| < 0x8000_0000 && states[0] == Create(buffer, pids)
    requires i < j <= |moves| && moves[i] == Move(p, Write(data)) && Calling(states, p, i, j)
    requires p in states[j].threads && states[j].threads[p].pc.Idle?
    ensures Of(states[j].written, p) == Of(states[i].written, p) + data
  {
    WritePutsInAll(states, moves, p, data, i, j);
    SoundAt(states, moves, buffer, pids, i);
    SoundAt(states, moves, buffer, pids, j);
  }

  lemma SoundAt(states: seq<State>, moves: seq<Move>, buffer: seq<byte>, pids: set<Pid>, k: nat)
    requires Run(states, moves) && OneWay(moves) && 0 < |buffer| < 0x8000_0000 && states[0] == Create(buffer, pids)
    requires k <= |moves|
    ensures Sound(states[k])
  {
    assert forall m | m in moves[..k] :: m in moves;
    RunSound(states[..k + 1], moves[..k], buffer, pids);
  }

  /** No slot is overwritten before it is read: the next store, locked or not, hits a slot already taken. */
  lemma NoOverwrite(s: State, p: Pid, k: nat)
    requires Sound(s) && p in s.threads && !Queued(s, p) && (s.threads[p].pc.WStore? || s.threads[p].pc.TStore?)
    requires |s.taken| <= k < |s.written|
    ensures k % |s.buffer| != s.writePos && s.buffer[k % |s.buffer|] == s.written[k].value
  {
    RoomForHolder(s, p);
    WriteSlotFree(s);
  }

  // -- tokens -----------------------------------------------------------------

  /** Threads holding a token taken from `empty`: from the wait to the signal of `full`. */
  ghost function HoldEmpty(s: State): set<Pid> {
    set p | p in s.threads && p !in s.empty.queue && Writing(s.threads[p].pc) && !s.threads[p].pc.WWait? :: p
  }

  /** Threads holding a token taken from `full`: from the wait to the signal of `empty`. */
  ghost function HoldFull(s: State): set<Pid> {
    set p | p in s.threads && p !in s.full.queue && Reading(s.threads[p].pc) && !s.threads[p].pc.RWait? :: p
  }

  function Positive(n: int): nat {
    if n > 0 then n else 0
  }

  /** A thread past a wait and not in its queue holds one token, on one side. */
  lemma TokenSide(s: State, p: Pid)
    requires Queues(s)
    ensures p in Members(s.threads, HasRoom) - Elements(s.empty.queue) || p in Members(s.threads, HasByte) - Elements(s.full.queue)
      <==> p in HoldEmpty(s) || p in HoldFull(s)
    ensures !(p in Members(s.threads, HasRoom) && p in Members(s.threads, HasByte))
    ensures !(p in HoldEmpty(s) && p in HoldFull(s))
  {
    if p in s.empty.queue {
      assert AfterWait(s.threads[p].pc, HasRoom);
    }
    if p in s.full.queue {
      assert AfterWait(s.threads[p].pc, HasByte);
    }
  }

  /** Tokens are conserved: free ones and held ones are always as many as the buffer has slots. */
  lemma TokensConserved(s: State)
    requires Queues(s) && Counts(s)
    ensures Positive(s.empty.count) + Positive(s.full.count) + |HoldEmpty(s)| + |HoldFull(s)| == |s.buffer|
    ensures s.empty.count <= |s.buffer| && s.full.count <= |s.buffer|
  {
    Unqueued(s.threads, HasRoom, s.empty);
    Unqueued(s.threads, HasByte, s.full);
    SameTotal(Members(s.threads, HasRoom) - Elements(s.empty.queue), Members(s.threads, HasByte) - Elements(s.full.queue),
              HoldEmpty(s), HoldFull(s)) by {
      forall p ensures
        && (p in Members(s.threads, HasRoom) - Elements(s.empty.queue) || p in Members(s.threads, HasByte) - Elements(s.full.queue)
            <==> p in HoldEmpty(s) || p in HoldFull(s))
        && !(p in Members(s.threads, HasRoom) && p in Members(s.threads, HasByte))
        && !(p in HoldEmpty(s) && p in HoldFull(s))
      {
        TokenSide(s, p);
      }
    }
  }

  lemma SameTotal(a: set<Pid>, b: set<Pid>, c: set<Pid>, d: set<Pid>)
    requires a !! b && c !! d && forall p :: p in a || p in b <==> p in c || p in d
    ensures |a| + |b| == |c| + |d|
  {
    assert |a + b| == |a| + |b| && |c + d| == |c| + |d|;
    assert a + b == c + d;
  }

  /** A thread that is not queued can always go on with its call, or begin one. */
  lemma UnqueuedCanMove(s: State, p: Pid, a: Act)
    requires Inv(s) && p in s.threads && !Queued(s, p)
    ensures Enabled(s, p, a) <==> (a.Continue? <==> !s.threads[p].pc.Idle?)
  {
    assert InCall(s, s.threads[p]);
  }

  /** Everybody is between calls or queued. */
  ghost predicate Quiet(s: State) {
    forall p | p in s.threads :: s.threads[p].pc.Idle? || Queued(s, p)
  }

  /**
    No deadlock: when nobody can move, nobody waits for the lock, writers wait only
    if the buffer is full and readers only if it is empty; so never both wait.
   */
  lemma NoDeadlock(s: State)
    requires Inv(s) && Quiet(s)
    ensures s.lock.queue == []
    ensures s.empty.queue != [] ==> Filled(s) == |s.buffer|
    ensures s.full.queue != [] ==> Filled(s) == 0
  {
    forall p | p in Members(s.threads, UsesLock) ensures p in s.lock.queue {
      QueuedWhere(s, p);
    }
    AllQueued(s, s.lock, UsesLock);
    forall p | p in Members(s.threads, HasRoom) ensures p in s.empty.queue {
      QueuedWhere(s, p);
    }
    AllQueued(s, s.empty, HasRoom);
    forall p | p in Members(s.threads, HasByte) ensures p in s.full.queue {
      QueuedWhere(s, p);
    }
    AllQueued(s, s.full, HasByte);
  }

  /** The queue a queued thread is in follows from where it is. */
  lemma QueuedWhere(s: State, p: Pid)
    requires Queues(s) && p in s.threads && Queued(s, p)
    ensures var pc := s.threads[p].pc;
      && (pc.WStore? || pc.RLoad? <==> p in s.lock.queue) && (pc.WLock? <==> p in s.empty.queue)
      && (pc.RLock? <==> p in s.full.queue)
  {}

  /** With everybody of a kind in the kind's queue, the count alone says how many there are. */
  lemma AllQueued(s: State, sem: Sem<Pid>, k: Kind)
    requires QueueOf(s.threads, sem, k)
    ensures (forall p | p in Members(s.threads, k) :: p in sem.queue) ==> sem.count + |Members(s.threads, k)| == Positive(sem.count)
  {
    if forall p | p in Members(s.threads, k) :: p in sem.queue {
      Unqueued(s.threads, k, sem);
      assert Members(s.threads, k) - Elements(sem.queue) == {};
    }
  }

  // -- the two kinds of writer together ----------------------------------------

  /**
    What goes wrong when a handler fires between another writer's store and position
    update: the writer's byte is replaced by the handler's, and the writer passes on
    whatever the next slot held.  Its bytes are still right exactly when that happens
    to be the same byte.
   */
  lemma MidwayWriterExactly(s: State, p: Pid, q: Pid, t: State, u: State)
    requires Sound(s) && q in s.threads && s.threads[q].pc.WAdvance?
    requires Enabled(s, p, Continue) && s.threads[p].pc.TStore? && t == Step(s, p, Continue)
    requires Enabled(t, q, Continue) && u == Step(t, q, Continue)
    ensures q in u.threads && |s.buffer| > 1
    ensures Of(u.written, q) == u.threads[q].sent
      <==> s.buffer[(s.writePos + 1) % |s.buffer|] == s.threads[q].data[s.threads[q].i]
  {
    HandlerStores(s, p, q);
    WriterPassesOn(t, q);
    TwoItems(s.written, Item(p, s.threads[p].data[s.threads[p].i]), Item(q, t.buffer[t.writePos]), q);
    SameEnd(Of(s.written, q), t.buffer[t.writePos], s.threads[q].data[s.threads[q].i]);
  }

  lemma SameEnd(a: seq<byte>, x: byte, y: byte)
    ensures a + [x] == a + [y] <==> x == y
  {
    assert (a + [x])[|a|] == x && (a + [y])[|a|] == y;
  }

  lemma TwoItems(items: seq<Item>, x: Item, y: Item, q: Pid)
    requires x.pid != q && y.pid == q
    ensures Of(items + [x] + [y], q) == Of(items, q) + [y.value]
  {
    OfMore(items, x, q);
    OfMore(items + [x], y, q);
  }

  lemma HandlerStores(s: State, p: Pid, q: Pid)
    requires Sound(s) && Enabled(s, p, Continue) && s.threads[p].pc.TStore?
    requires q in s.threads && s.threads[q].pc.WAdvance?
    ensures |s.buffer| > 1
    ensures var t := Step(s, p, Continue);
      && Enabled(t, q, Continue) && t.threads[q] == s.threads[q]
      && t.written == s.written + [Item(p, s.threads[p].data[s.threads[p].i])]
      && t.writePos == (s.writePos + 1) % |s.buffer| && t.buffer[t.writePos] == s.buffer[t.writePos]
  {
    assert InCall(s, s.threads[q]) && !Queued(s, q);
    RoomForTwo(s, p, q);
    NextSlot(|s.written|, |s.buffer|);
    SlotsDiffer(|s.written|, |s.written| + 1, |s.buffer|);
  }

  lemma WriterPassesOn(t: State, q: Pid)
    requires Enabled(t, q, Continue) && t.threads[q].pc.WAdvance?
    ensures var u, th := Step(t, q, Continue), t.threads[q];
      && u.written == t.written + [Item(q, t.buffer[t.writePos])] && q in u.threads
      && u.threads[q].sent == th.sent + [th.data[th.i]]
  {}

  /**
    A run in which this loses a byte: thread 0 writes 9, a handler run as thread 1
    writes 7 in between, and what arrives from thread 0 is the 6 the buffer held.
   */
  lemma MixedWritersExample(s0: State, s1: State, s2: State, s3: State, s4: State, s5: State, s6: State, s7: State)
    requires s0 == Create([5, 6], {0, 1})
    requires Enabled(s0, 0, Write([9])) && s1 == Step(s0, 0, Write([9]))
    requires Enabled(s1, 0, Continue) && s2 == Step(s1, 0, Continue)
    requires Enabled(s2, 0, Continue) && s3 == Step(s2, 0, Continue)
    requires Enabled(s3, 0, Continue) && s4 == Step(s3, 0, Continue)
    requires Enabled(s4, 1, TryWrite(7)) && s5 == Step(s4, 1, TryWrite(7))
    requires Enabled(s5, 1, Continue) && s6 == Step(s5, 1, Continue)
    requires Enabled(s6, 0, Continue) && s7 == Step(s6, 0, Continue)
    ensures 0 in s7.threads && s7.threads[0].sent == [9] && Of(s7.written, 0) == [6]
  {
    UpToStore(s0, s1, s2, s3, s4);
    AfterStore(s4, s5, s6, s7);
  }

  ghost predicate NineStored(s: State) {
    && s.buffer == [9, 6] && s.writePos == 0 && s.written == [] && s.empty == Sem(1, []) && s.lock.queue == []
    && s.full.queue == [] && 0 in s.threads && 1 in s.threads
    && s.threads[0].pc == WAdvance && s.threads[0].data == [9] && s.threads[0].i == 0 && s.threads[0].sent == []
  }

  lemma UpToStore(s0: State, s1: State, s2: State, s3: State, s4: State)
    requires s0 == Create([5, 6], {0, 1})
    requires Enabled(s0, 0, Write([9])) && s1 == Step(s0, 0, Write([9]))
    requires Enabled(s1, 0, Continue) && s2 == Step(s1, 0, Continue)
    requires Enabled(s2, 0, Continue) && s3 == Step(s2, 0, Continue)
    requires Enabled(s3, 0, Continue) && s4 == Step(s3, 0, Continue)
    ensures NineStored(s4)
  {
    assert s0.empty.count == 2;
    assert s1.threads[0].pc == WWait && s2.threads[0].pc == WLock && s3.threads[0].pc == WStore;
  }

  lemma AfterStore(s4: State, s5: State, s6: State, s7: State)
    requires NineStored(s4)
    requires Enabled(s4, 1, TryWrite(7)) && s5 == Step(s4, 1, TryWrite(7))
    requires Enabled(s5, 1, Continue) && s6 == Step(s5, 1, Continue)
    requires Enabled(s6, 0, Continue) && s7 == Step(s6, 0, Continue)
    ensures 0 in s7.threads && s7.threads[0].sent == [9] && Of(s7.written, 0) == [6]
  {
    assert s5.threads[1].pc == TStore && s5.buffer == [9, 6];
    assert s6.buffer == [7, 6] && s6.writePos == 1 && s6.written == [Item(1, 7)];
    assert s7.written == [] + [Item(1, 7)] + [Item(0, 6)];
    TwoItems([], Item(1, 7), Item(0, 6), 0);
  }
}
