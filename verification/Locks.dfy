/**
  Mutexes taken in a fixed order: at most one holder each, no circular wait, and
  always somebody who can go on.  The file system's calls keep to the order.

  Mutexes are numbered by their place in the order.  A process runs a script of lock
  and unlock operations and of uses of what a mutex guards; a step is one of them.
 */
module Locks {

  import opened Collections
  import opened Semaphores

  type Pid = nat
  type Mutex = nat

  /** `Use(m)` is work on what mutex `m` is there to guard. */
  datatype Op = Lock(m: Mutex) | Unlock(m: Mutex) | Use(m: Mutex)

  /** `pc` operations of the script have been issued; a process in a queue still waits for the last. */
  datatype Thread = Thread(script: seq<Op>, pc: nat)

  datatype State = State(mutexes: map<Mutex, Sem<Pid>>, threads: map<Pid, Thread>)

  function HeldAfter(held: set<Mutex>, op: Op): set<Mutex> {
    match op
    case Lock(m) => held + {m}
    case Unlock(m) => held - {m}
    case Use(m) => held
  }

  /** What has been locked and not unlocked again. */
  function Claims(ops: seq<Op>): set<Mutex> {
    if ops == [] then {} else HeldAfter(Claims(ops[..|ops| - 1]), ops[|ops| - 1])
  }

  /**
    A mutex is locked only while all those held come before it, unlocked only while
    held, and what it guards is used only while it is held; none is kept.
   */
  ghost predicate Disciplined(script: seq<Op>) {
    && Claims(script) == {}
    && forall k | 0 <= k < |script| :: Allowed(Claims(script[..k]), script[k])
  }

  predicate Allowed(held: set<Mutex>, op: Op) {
    match op
    case Lock(m) => forall h | h in held :: h < m
    case Unlock(m) => m in held
    case Use(m) => m in held
  }

  predicate Queued(s: State, p: Pid) {
    exists m | m in s.mutexes :: p in s.mutexes[m].queue
  }

  ghost predicate Enabled(s: State, p: Pid) {
    && p in s.threads && s.threads[p].pc < |s.threads[p].script| && !Queued(s, p)
    && s.threads[p].script[s.threads[p].pc].m in s.mutexes
  }

  ghost function Step(s: State, p: Pid): State
    requires Enabled(s, p)
  {
    var th := s.threads[p];
    var op := th.script[th.pc];
    var sem := s.mutexes[op.m];
    State(s.mutexes[op.m := if op.Lock? then Wait(sem, p) else if op.Unlock? then Signal(sem) else sem],
          s.threads[p := th.(pc := th.pc + 1)])
  }

  /** The start: every mutex free, every process before its script. */
  ghost function Start(mutexes: set<Mutex>, scripts: map<Pid, seq<Op>>): State {
    State(map m | m in mutexes :: Sem(1, []), map p | p in scripts :: Thread(scripts[p], 0))
  }

  // -- the invariant ----------------------------------------------------------

  ghost predicate Claiming(th: Thread, m: Mutex) {
    th.pc <= |th.script| && m in Claims(th.script[..th.pc])
  }

  ghost function Claimants(threads: map<Pid, Thread>, m: Mutex): set<Pid> {
    set p | p in threads && Claiming(threads[p], m) :: p
  }

  ghost predicate GoodThread(s: State, th: Thread) {
    Disciplined(th.script) && th.pc <= |th.script| && forall k | 0 <= k < |th.script| :: th.script[k].m in s.mutexes
  }

  predicate WaitsAt(th: Thread, m: Mutex) {
    0 < th.pc <= |th.script| && th.script[th.pc - 1] == Lock(m)
  }

  ghost predicate GoodMutex(threads: map<Pid, Thread>, sem: Sem<Pid>, m: Mutex) {
    && GoodSem(sem) && NoRepeats(sem.queue)
    && sem.count == 1 - |Claimants(threads, m)|
    && forall p | p in sem.queue :: p in threads && WaitsAt(threads[p], m)
  }

  ghost predicate Inv(s: State) {
    && (forall p | p in s.threads :: GoodThread(s, s.threads[p]))
    && (forall m | m in s.mutexes :: GoodMutex(s.threads, s.mutexes[m], m))
  }

  ghost predicate Holds(s: State, p: Pid, m: Mutex) {
    m in s.mutexes && p in Claimants(s.threads, m) && p !in s.mutexes[m].queue
  }

  lemma StartInv(mutexes: set<Mutex>, scripts: map<Pid, seq<Op>>)
    requires forall p | p in scripts :: Disciplined(scripts[p]) && forall k | 0 <= k < |scripts[p]| :: scripts[p][k].m in mutexes
    ensures Inv(Start(mutexes, scripts))
  {
    var s := Start(mutexes, scripts);
    forall m | m in s.mutexes ensures GoodMutex(s.threads, s.mutexes[m], m) {
      assert Claimants(s.threads, m) == {};
    }
  }

  lemma ClaimsMore(script: seq<Op>, pc: nat)
    requires pc < |script|
    ensures Claims(script[..pc + 1]) == HeldAfter(Claims(script[..pc]), script[pc])
  {
    assert script[..pc + 1][..pc] == script[..pc];
  }

  lemma ClaimantsAfter(threads: map<Pid, Thread>, p: Pid, th: Thread, m: Mutex)
    requires p in threads
    ensures |Claimants(threads[p := th], m)| == |Claimants(threads, m)| - One(Claiming(threads[p], m)) + One(Claiming(th, m))
  {
    var c, c' := Claimants(threads, m), Claimants(threads[p := th], m);
    forall q | q != p ensures q in c <==> q in c' {
      assert q in threads[p := th] <==> q in threads;
    }
    assert p in threads[p := th] && threads[p := th][p] == th;
    assert (p in c <==> Claiming(threads[p], m)) && (p in c' <==> Claiming(th, m));
    WithOrWithout(c, c', p);
  }

  /** What the next operation does to the mover's claims. */
  lemma ClaimingAfter(th: Thread, m: Mutex)
    requires Disciplined(th.script) && th.pc < |th.script|
    ensures var op, th' := th.script[th.pc], th.(pc := th.pc + 1);
      && (op == Lock(m) ==> Claiming(th', m) && !Claiming(th, m) && WaitsAt(th', m))
      && (op == Unlock(m) ==> !Claiming(th', m) && Claiming(th, m))
      && (op.m != m || op.Use? ==> (Claiming(th', m) <==> Claiming(th, m)))
  {
    assert Allowed(Claims(th.script[..th.pc]), th.script[th.pc]);
    ClaimsMore(th.script, th.pc);
  }

  lemma UntouchedMutex(threads: map<Pid, Thread>, sem: Sem<Pid>, m: Mutex, p: Pid, th: Thread)
    requires GoodMutex(threads, sem, m) && p in threads && p !in sem.queue
    requires Claiming(th, m) <==> Claiming(threads[p], m)
    ensures GoodMutex(threads[p := th], sem, m)
  {
    ClaimantsAfter(threads, p, th, m);
  }

  lemma LockedMutex(threads: map<Pid, Thread>, sem: Sem<Pid>, m: Mutex, p: Pid, th: Thread)
    requires GoodMutex(threads, sem, m) && p in threads && p !in sem.queue
    requires !Claiming(threads[p], m) && Claiming(th, m) && WaitsAt(th, m)
    ensures GoodMutex(threads[p := th], Wait(sem, p), m)
  {
    ClaimantsAfter(threads, p, th, m);
  }

  lemma UnlockedMutex(threads: map<Pid, Thread>, sem: Sem<Pid>, m: Mutex, p: Pid, th: Thread)
    requires GoodMutex(threads, sem, m) && p in threads && p !in sem.queue
    requires Claiming(threads[p], m) && !Claiming(th, m)
    ensures GoodMutex(threads[p := th], Signal(sem), m)
  {
    ClaimantsAfter(threads, p, th, m);
  }

  lemma MutexKept(s: State, p: Pid, m: Mutex)
    requires Inv(s) && Enabled(s, p) && m in s.mutexes
    ensures GoodMutex(Step(s, p).threads, Step(s, p).mutexes[m], m)
  {
    var th := s.threads[p];
    var op, th' := th.script[th.pc], th.(pc := th.pc + 1);
    assert GoodThread(s, th) && GoodMutex(s.threads, s.mutexes[m], m) && p !in s.mutexes[m].queue;
    ClaimingAfter(th, m);
    if op == Lock(m) {
      LockedMutex(s.threads, s.mutexes[m], m, p, th');
    } else if op == Unlock(m) {
      UnlockedMutex(s.threads, s.mutexes[m], m, p, th');
    } else {
      UntouchedMutex(s.threads, s.mutexes[m], m, p, th');
    }
  }

  /** Every lock and unlock keeps count = 1 - holders - waiters, and the queues. */
  lemma StepKeeps(s: State, p: Pid)
    requires Inv(s) && Enabled(s, p)
    ensures Inv(Step(s, p))
  {
    var t := Step(s, p);
    forall m | m in t.mutexes ensures GoodMutex(t.threads, t.mutexes[m], m) {
      MutexKept(s, p, m);
    }
    forall q | q in t.threads ensures GoodThread(t, t.threads[q]) {
      assert GoodThread(s, s.threads[q]);
    }
  }

  // -- one holder -------------------------------------------------------------

  ghost function Holders(s: State, m: Mutex): set<Pid>
    requires m in s.mutexes
  {
    set p | p in Claimants(s.threads, m) && p !in s.mutexes[m].queue :: p
  }

  /** A mutex has one holder, or none exactly when it is free. */
  lemma HolderCount(s: State, m: Mutex)
    requires Inv(s) && m in s.mutexes
    ensures |Holders(s, m)| == if s.mutexes[m].count == 1 then 0 else 1
    ensures s.mutexes[m].count <= 1
  {
    assert GoodMutex(s.threads, s.mutexes[m], m);
    var q := s.mutexes[m].queue;
    QueueSize(q);
    forall p | p in q ensures p in Claimants(s.threads, m) {
      WaiterClaims(s, p, m);
    }
    assert Claimants(s.threads, m) == Holders(s, m) + Elements(q);
  }

  lemma WaiterClaims(s: State, p: Pid, m: Mutex)
    requires p in s.threads && WaitsAt(s.threads[p], m)
    ensures p in Claimants(s.threads, m)
  {
    var th := s.threads[p];
    ClaimsMore(th.script, th.pc - 1);
  }

  lemma OneHolder(s: State, m: Mutex, p: Pid, q: Pid)
    requires Inv(s) && Holds(s, p, m) && Holds(s, q, m)
    ensures p == q
  {
    HolderCount(s, m);
    AtMostOne(Holders(s, m), p, q);
  }

  /** The process is about to work on what the mutex guards. */
  ghost predicate Using(s: State, p: Pid, m: Mutex) {
    Enabled(s, p) && s.threads[p].script[s.threads[p].pc] == Use(m)
  }

  /** Who works on what a mutex guards holds it; so nobody else does at the same time. */
  lemma UsersHold(s: State, p: Pid, m: Mutex)
    requires Inv(s) && Using(s, p, m)
    ensures Holds(s, p, m)
  {
    var th := s.threads[p];
    assert GoodThread(s, th) && Allowed(Claims(th.script[..th.pc]), th.script[th.pc]);
  }

  // -- no circular wait -------------------------------------------------------

  ghost predicate WaitsFor(s: State, p: Pid, m: Mutex, q: Pid) {
    m in s.mutexes && p in s.mutexes[m].queue && Holds(s, q, m)
  }

  /** Who holds a mutex waits only for later ones. */
  lemma RankRises(s: State, m: Mutex, q: Pid, n: Mutex)
    requires Inv(s) && Holds(s, q, m) && n in s.mutexes && q in s.mutexes[n].queue
    ensures m < n
  {
    var th := s.threads[q];
    assert GoodMutex(s.threads, s.mutexes[n], n) && GoodThread(s, th);
    ClaimsMore(th.script, th.pc - 1);
    assert Allowed(Claims(th.script[..th.pc - 1]), th.script[th.pc - 1]);
  }

  /** A chain of processes, each waiting for the next one by way of the mutex named beside it. */
  ghost predicate WaitChain(s: State, ps: seq<Pid>, ms: seq<Mutex>) {
    |ps| == |ms| + 1 && forall i | 0 <= i < |ms| :: WaitsFor(s, ps[i], ms[i], ps[i + 1])
  }

  lemma {:induction false} ChainRises(s: State, ps: seq<Pid>, ms: seq<Mutex>, n: Mutex)
    requires Inv(s) && WaitChain(s, ps, ms) && ms != [] && n in s.mutexes && ps[|ms|] in s.mutexes[n].queue
    ensures ms[0] < n
    decreases |ms|
  {
    var k := |ms| - 1;
    assert WaitsFor(s, ps[k], ms[k], ps[k + 1]);
    RankRises(s, ms[k], ps[k + 1], n);
    if k > 0 {
      ChainRises(s, ps[..k + 1], ms[..k], ms[k]);
    }
  }

  /** The waits-for graph has no cycle, whatever the number of processes. */
  lemma NoCircularWait(s: State, ps: seq<Pid>, ms: seq<Mutex>)
    requires Inv(s) && WaitChain(s, ps, ms) && ms != []
    ensures ps[0] != ps[|ms|]
  {
    assert WaitsFor(s, ps[0], ms[0], ps[1]);
    if ps[0] == ps[|ms|] {
      ChainRises(s, ps, ms, ms[0]);
    }
  }

  // -- progress ---------------------------------------------------------------

  ghost function Later(s: State, m: Mutex): set<Mutex> {
    set n | n in s.mutexes && m < n :: n
  }

  /** A mutex somebody waits for has a holder, and the holder has not finished. */
  lemma HolderOf(s: State, p: Pid, m: Mutex) returns (q: Pid)
    requires Inv(s) && m in s.mutexes && p in s.mutexes[m].queue
    ensures Holds(s, q, m) && q in s.threads && s.threads[q].pc < |s.threads[q].script|
    ensures s.threads[q].script[s.threads[q].pc].m in s.mutexes
  {
    assert GoodMutex(s.threads, s.mutexes[m], m);
    HolderCount(s, m);
    q :| q in Holders(s, m);
    assert GoodThread(s, s.threads[q]);
    NotFinished(s.threads[q], m);
  }

  lemma NotFinished(th: Thread, m: Mutex)
    requires Disciplined(th.script) && Claiming(th, m)
    ensures th.pc < |th.script|
  {
    assert th.script[..|th.script|] == th.script;
  }

  /** Following a waiter to the holder, and on, ends at a process that can go on. */
  lemma {:induction false} WaiterLeadsToMover(s: State, p: Pid, m: Mutex) returns (q: Pid)
    requires Inv(s) && m in s.mutexes && p in s.mutexes[m].queue
    ensures Enabled(s, q)
    decreases |Later(s, m)|
  {
    q := HolderOf(s, p, m);
    if Queued(s, q) {
      var n :| n in s.mutexes && q in s.mutexes[n].queue;
      RankRises(s, m, q, n);
      LaterShrinks(s, m, n);
      q := WaiterLeadsToMover(s, q, n);
    }
  }

  lemma LaterShrinks(s: State, m: Mutex, n: Mutex)
    requires m < n && n in s.mutexes
    ensures |Later(s, n)| < |Later(s, m)|
  {
    assert n in Later(s, m);
    Smaller(Later(s, n), Later(s, m), n);
  }

  lemma Smaller(x: set<Mutex>, y: set<Mutex>, n: Mutex)
    requires x <= y - {n} && n in y
    ensures |x| < |y|
  {
    assert y == x + (y - x);
    assert n in y - x;
  }

  /** No deadlock: as long as some process has not finished its script, some process can go on. */
  lemma SomebodyMoves(s: State, p: Pid) returns (q: Pid)
    requires Inv(s) && p in s.threads && s.threads[p].pc < |s.threads[p].script|
    ensures Enabled(s, q)
  {
    assert GoodThread(s, s.threads[p]);
    if Queued(s, p) {
      var m :| m in s.mutexes && p in s.mutexes[m].queue;
      q := WaiterLeadsToMover(s, p, m);
    } else {
      q := p;
    }
  }

  // -- the file system's calls ------------------------------------------------

  /** The order written down for them: the list of mount points before the heap. */
  const MOUNTPOINTS: Mutex := 0
  const HEAP: Mutex := 1

  /** One use of the heap. */
  function HeapUse(): seq<Op> {
    [Lock(HEAP), Use(HEAP), Unlock(HEAP)]
  }

  /** An entry put into the list, which takes memory for its node from the heap. */
  function AddEntry(): seq<Op> {
    [Lock(MOUNTPOINTS), Lock(HEAP), Use(MOUNTPOINTS), Use(HEAP), Unlock(HEAP), Unlock(MOUNTPOINTS)]
  }

  /** `vfs_mount`; the flags say which allocations succeed and whether the list took the entry. */
  function MountScript(gotMountpoint: bool, gotPath: bool, added: bool): seq<Op> {
    HeapUse() +
    if !gotMountpoint then [] else
      HeapUse() +
      if !gotPath then HeapUse() else AddEntry() + if added then [] else HeapUse()
  }

  /** `vfs_umount`: the entry is looked up, freed, and taken off the list. */
  function UmountScript(found: bool): seq<Op> {
    if found then
      [Lock(MOUNTPOINTS), Use(MOUNTPOINTS), Lock(HEAP), Use(HEAP), Use(MOUNTPOINTS), Unlock(HEAP), Unlock(MOUNTPOINTS)]
    else LookupScript()
  }

  /** The lookup that opens `vfs_read` and the like. */
  function LookupScript(): seq<Op> {
    [Lock(MOUNTPOINTS), Use(MOUNTPOINTS), Unlock(MOUNTPOINTS)]
  }

  /** `vfs_open`, with the initramfs behind it; nothing is locked for a null path. */
  function OpenScript(path: bool, found: bool, present: bool, gotFile: bool, gotName: bool): seq<Op> {
    if !path then [] else
      LookupScript() +
      if !found || !present then [] else
        HeapUse() + if !gotFile then [] else HeapUse() + if gotName then [] else HeapUse()
  }

  /** Checks a script from what is held before it; `Disciplined` for those that end holding nothing. */
  predicate Orderly(held: set<Mutex>, script: seq<Op>)
    decreases |script|
  {
    if script == [] then held == {} else
      var op := script[0];
      Allowed(held, op) && Orderly(HeldAfter(held, op), script[1..])
  }

  function ClaimsFrom(held: set<Mutex>, ops: seq<Op>): set<Mutex>
    decreases |ops|
  {
    if ops == [] then held else
      ClaimsFrom(HeldAfter(held, ops[0]), ops[1..])
  }

  lemma {:induction false} ClaimsFromEnd(held: set<Mutex>, ops: seq<Op>, op: Op)
    ensures ClaimsFrom(held, ops + [op]) == HeldAfter(ClaimsFrom(held, ops), op)
    decreases |ops|
  {
    if ops != [] {
      var first := ops[0];
      assert (ops + [op])[1..] == ops[1..] + [op];
      ClaimsFromEnd(HeldAfter(held, first), ops[1..], op);
    } else {
      assert ([] + [op])[1..] == [];
    }
  }

  lemma {:induction false} ClaimsAreFromNone(ops: seq<Op>)
    ensures ClaimsFrom({}, ops) == Claims(ops)
  {
    if ops != [] {
      var front := ops[..|ops| - 1];
      ClaimsAreFromNone(front);
      assert ops == front + [ops[|ops| - 1]];
      ClaimsFromEnd({}, front, ops[|ops| - 1]);
    }
  }

  lemma {:induction false} OrderlySteps(held: set<Mutex>, script: seq<Op>, k: nat)
    requires Orderly(held, script) && k <= |script|
    ensures k < |script| ==> Allowed(ClaimsFrom(held, script[..k]), script[k])
    ensures k == |script| ==> ClaimsFrom(held, script) == {}
    decreases |script|
  {
    if script != [] && k > 0 {
      assert script[..k][1..] == script[1..][..k - 1];
      OrderlySteps(HeldAfter(held, script[0]), script[1..], k - 1);
    }
  }

  lemma OrderlyIsDisciplined(script: seq<Op>)
    requires Orderly({}, script)
    ensures Disciplined(script)
  {
    OrderlySteps({}, script, |script|);
    ClaimsAreFromNone(script);
    forall k | 0 <= k < |script| ensures Allowed(Claims(script[..k]), script[k]) {
      OrderlySteps({}, script, k);
      ClaimsAreFromNone(script[..k]);
    }
  }

  /** Calls of the file system, each with the outcomes that decide its path. */
  datatype Call =
    | MountCall(gotMountpoint: bool, gotPath: bool, added: bool)
    | UmountCall(found: bool)
    | OpenCall(path: bool, found: bool, present: bool, gotFile: bool, gotName: bool)
    | ReadCall

  function CallScript(c: Call): seq<Op> {
    match c
    case MountCall(gotMountpoint, gotPath, added) => MountScript(gotMountpoint, gotPath, added)
    case UmountCall(found) => UmountScript(found)
    case OpenCall(path, found, present, gotFile, gotName) => OpenScript(path, found, present, gotFile, gotName)
    case ReadCall => LookupScript()
  }

  function Session(calls: seq<Call>): seq<Op> {
    if calls == [] then [] else CallScript(calls[0]) + Session(calls[1..])
  }

  lemma {:induction false} OrderlyThen(held: set<Mutex>, a: seq<Op>, b: seq<Op>)
    requires Orderly(held, a) && Orderly({}, b)
    ensures Orderly(held, a + b)
    decreases |a|
  {
    if a == [] {
      assert a + b == b;
    } else {
      assert (a + b)[1..] == a[1..] + b;
      OrderlyThen(HeldAfter(held, a[0]), a[1..], b);
    }
  }

  /** One operation in front. */
  lemma First(held: set<Mutex>, op: Op, rest: seq<Op>)
    requires Allowed(held, op) && Orderly(HeldAfter(held, op), rest)
    ensures Orderly(held, [op] + rest)
  {
    assert ([op] + rest)[1..] == rest;
  }

  lemma PairOrderly(m: Mutex)
    ensures Orderly({}, [Lock(m), Use(m), Unlock(m)])
  {
    assert {m} - {m} == {} && {} + {m} == {m};
    First({m}, Unlock(m), []);
    First({m}, Use(m), [Unlock(m)] + []);
    First({}, Lock(m), [Use(m)] + ([Unlock(m)] + []));
    assert [Lock(m)] + ([Use(m)] + ([Unlock(m)] + [])) == [Lock(m), Use(m), Unlock(m)];
  }

  lemma HeapUseOrderly()
    ensures Orderly({}, HeapUse()) && Orderly({}, LookupScript())
  {
    PairOrderly(HEAP);
    PairOrderly(MOUNTPOINTS);
  }

  /** Both mutexes, in the order written down. */
  lemma NestedOrderly()
    ensures Orderly({}, AddEntry()) && Orderly({}, UmountScript(true))
  {
    assert {0} - {0} == {} && {0, 1} - {1} == {0} && {0} + {1} == {0, 1} && {} + {0} == {0};
    var end := [Unlock(HEAP)] + ([Unlock(MOUNTPOINTS)] + []);
    First({0}, Unlock(MOUNTPOINTS), []);
    First({0, 1}, Unlock(HEAP), [Unlock(MOUNTPOINTS)] + []);
    First({0, 1}, Use(HEAP), end);
    First({0, 1}, Use(MOUNTPOINTS), [Use(HEAP)] + end);
    First({0}, Lock(HEAP), [Use(MOUNTPOINTS)] + ([Use(HEAP)] + end));
    First({}, Lock(MOUNTPOINTS), [Lock(HEAP)] + ([Use(MOUNTPOINTS)] + ([Use(HEAP)] + end)));
    assert [Lock(MOUNTPOINTS)] + ([Lock(HEAP)] + ([Use(MOUNTPOINTS)] + ([Use(HEAP)] + end))) == AddEntry();
    First({0, 1}, Use(MOUNTPOINTS), end);
    First({0, 1}, Use(HEAP), [Use(MOUNTPOINTS)] + end);
    First({0}, Lock(HEAP), [Use(HEAP)] + ([Use(MOUNTPOINTS)] + end));
    First({0}, Use(MOUNTPOINTS), [Lock(HEAP)] + ([Use(HEAP)] + ([Use(MOUNTPOINTS)] + end)));
    First({}, Lock(MOUNTPOINTS), [Use(MOUNTPOINTS)] + ([Lock(HEAP)] + ([Use(HEAP)] + ([Use(MOUNTPOINTS)] + end))));
    assert [Lock(MOUNTPOINTS)] + ([Use(MOUNTPOINTS)] + ([Lock(HEAP)] + ([Use(HEAP)] + ([Use(MOUNTPOINTS)] + end))))
        == UmountScript(true);
  }

  /** Every path of every call keeps to the order and lets go of what it took. */
  lemma CallOrderly(c: Call)
    ensures Orderly({}, CallScript(c))
  {
    HeapUseOrderly();
    NestedOrderly();
    var two := HeapUse() + HeapUse();
    OrderlyThen({}, HeapUse(), HeapUse());
    OrderlyThen({}, HeapUse(), []);
    match c
    case MountCall(gotMountpoint, gotPath, added) =>
      var tail := AddEntry() + if added then [] else HeapUse();
      OrderlyThen({}, AddEntry(), if added then [] else HeapUse());
      OrderlyThen({}, HeapUse(), tail);
      OrderlyThen({}, HeapUse(), HeapUse() + tail);
      OrderlyThen({}, HeapUse(), two);
    case UmountCall(found) =>
    case OpenCall(path, found, present, gotFile, gotName) =>
      var rest := HeapUse() + if gotName then [] else HeapUse();
      OrderlyThen({}, HeapUse(), if gotName then [] else HeapUse());
      OrderlyThen({}, HeapUse(), rest);
      OrderlyThen({}, LookupScript(), []);
      OrderlyThen({}, LookupScript(), HeapUse() + []);
      OrderlyThen({}, LookupScript(), HeapUse() + rest);
    case ReadCall =>
  }

  /** How often the script works on what a mutex guards. */
  function Uses(script: seq<Op>, m: Mutex): nat {
    multiset(script)[Use(m)]
  }

  lemma UsesSum(a: seq<Op>, b: seq<Op>, m: Mutex)
    ensures Uses(a + b, m) == Uses(a, m) + Uses(b, m)
  {}

  lemma UsesOfParts(a: seq<Op>, b: seq<Op>, c: seq<Op>, m: Mutex)
    ensures Uses(a + (b + c), m) == Uses(a, m) + Uses(b, m) + Uses(c, m)
  {
    UsesSum(b, c, m);
    UsesSum(a, b + c, m);
  }

  /** `vfs_read` looks a mount point up once, and takes nothing from the heap. */
  lemma PartWork(m: Mutex)
    ensures Uses(HeapUse(), m) == One(m == HEAP) && Uses(LookupScript(), m) == One(m == MOUNTPOINTS) && Uses([], m) == 0
    ensures Uses(AddEntry(), m) == One(m == MOUNTPOINTS) + One(m == HEAP)
  {}

  /** How often each path of `vfs_mount` works on the list of mount points and on the heap. */
  lemma MountWork(gotMountpoint: bool, gotPath: bool, added: bool, m: Mutex)
    ensures Uses(MountScript(gotMountpoint, gotPath, added), m) ==
      if !gotMountpoint then One(m == HEAP) else if !gotPath then 3 * One(m == HEAP)
      else One(m == MOUNTPOINTS) + (if added then 3 else 4) * One(m == HEAP)
  {
    PartWork(m);
    var last := if added then [] else HeapUse();
    UsesSum(HeapUse(), [], m);
    UsesOfParts(HeapUse(), HeapUse(), HeapUse(), m);
    UsesSum(AddEntry(), last, m);
    UsesOfParts(HeapUse(), HeapUse(), AddEntry() + last, m);
  }

  /** The same for `vfs_open`. */
  lemma OpenWork(path: bool, found: bool, present: bool, gotFile: bool, gotName: bool, m: Mutex)
    ensures Uses(OpenScript(path, found, present, gotFile, gotName), m) ==
      if !path then 0 else
        One(m == MOUNTPOINTS) + (if !found || !present then 0 else if !gotFile then 1 else if gotName then 2 else 3) * One(m == HEAP)
  {
    PartWork(m);
    var last := if gotName then [] else HeapUse();
    UsesSum(LookupScript(), [], m);
    UsesOfParts(LookupScript(), HeapUse(), [], m);
    UsesOfParts(HeapUse(), HeapUse(), last, m);
    UsesSum(LookupScript(), HeapUse() + (HeapUse() + last), m);
  }

  /** And for `vfs_umount`. */
  lemma UmountWork(found: bool, m: Mutex)
    ensures Uses(UmountScript(found), m) ==
      if found then 2 * One(m == MOUNTPOINTS) + One(m == HEAP) else One(m == MOUNTPOINTS)
  {}

  /** `vfs_umount` keeps the list locked from its lookup to the removal. */
  lemma UmountInOnePiece(found: bool)
    ensures var script := UmountScript(found);
      && script != [] && script[0] == Lock(MOUNTPOINTS) && script[|script| - 1] == Unlock(MOUNTPOINTS)
      && forall k | 0 <= k < |script| - 1 :: script[k] != Unlock(MOUNTPOINTS)
  {}

  lemma {:induction false} SessionOrderly(calls: seq<Call>)
    ensures Orderly({}, Session(calls))
  {
    if calls != [] {
      CallOrderly(calls[0]);
      SessionOrderly(calls[1..]);
      OrderlyThen({}, CallScript(calls[0]), Session(calls[1..]));
    }
  }

  // -- runs -------------------------------------------------------------------

  ghost predicate Run(states: seq<State>, movers: seq<Pid>) {
    && |states| == |movers| + 1
    && forall i | 0 <= i < |movers| :: Enabled(states[i], movers[i]) && states[i + 1] == Step(states[i], movers[i])
  }

  lemma {:induction false} RunKeeps(states: seq<State>, movers: seq<Pid>)
    requires Run(states, movers) && Inv(states[0])
    ensures Inv(states[|movers|])
  {
    if movers != [] {
      var n := |movers| - 1;
      RunKeeps(states[..n + 1], movers[..n]);
      StepKeeps(states[n], movers[n]);
    }
  }

  lemma {:induction false} SessionMutexes(calls: seq<Call>)
    ensures forall k | 0 <= k < |Session(calls)| :: Session(calls)[k].m in {MOUNTPOINTS, HEAP}
  {
    if calls != [] {
      SessionMutexes(calls[1..]);
    }
  }

  ghost predicate MutuallyExclusive(s: State) {
    forall m, p, q | Holds(s, p, m) && Holds(s, q, m) :: p == q
  }

  ghost predicate UsesExclusive(s: State) {
    forall m, p, q | Using(s, p, m) && Using(s, q, m) :: p == q
  }

  ghost predicate NoCycles(s: State) {
    forall ps, ms | WaitChain(s, ps, ms) && ms != [] :: ps[0] != ps[|ms|]
  }

  /** While somebody has not finished, somebody can go on. */
  ghost predicate Progress(s: State) {
    forall p | p in s.threads && s.threads[p].pc < |s.threads[p].script| :: exists q :: Enabled(s, q)
  }

  lemma InvIsSafe(s: State)
    requires Inv(s)
    ensures MutuallyExclusive(s) && UsesExclusive(s) && NoCycles(s) && Progress(s)
  {
    forall m, p, q | Using(s, p, m) && Using(s, q, m) ensures p == q {
      UsersHold(s, p, m);
      UsersHold(s, q, m);
      OneHolder(s, m, p, q);
    }
    forall m, p, q | Holds(s, p, m) && Holds(s, q, m) ensures p == q {
      OneHolder(s, m, p, q);
    }
    forall ps, ms | WaitChain(s, ps, ms) && ms != [] ensures ps[0] != ps[|ms|] {
      NoCircularWait(s, ps, ms);
    }
    forall p | p in s.threads && s.threads[p].pc < |s.threads[p].script| ensures exists q :: Enabled(s, q) {
      var q := SomebodyMoves(s, p);
    }
  }

  function Sessions(calls: map<Pid, seq<Call>>): map<Pid, seq<Op>> {
    map p | p in calls :: Session(calls[p])
  }

  lemma SessionsStart(calls: map<Pid, seq<Call>>)
    ensures Inv(Start({MOUNTPOINTS, HEAP}, Sessions(calls)))
  {
    var scripts := Sessions(calls);
    forall p | p in scripts
      ensures Disciplined(scripts[p]) && forall k | 0 <= k < |scripts[p]| :: scripts[p][k].m in {MOUNTPOINTS, HEAP}
    {
      SessionOrderly(calls[p]);
      OrderlyIsDisciplined(Session(calls[p]));
      SessionMutexes(calls[p]);
    }
    StartInv({MOUNTPOINTS, HEAP}, scripts);
  }

  /**
    Any number of processes, each making any calls in any interleaving: at every point
    the two mutexes have one holder at most, at most one process works on what each
    guards, nobody waits in a circle, and as long as somebody has not finished somebody
    can go on.
   */
  lemma FileSystemNeverDeadlocks(states: seq<State>, movers: seq<Pid>, calls: map<Pid, seq<Call>>)
    requires Run(states, movers)
    requires states[0] == Start({MOUNTPOINTS, HEAP}, Sessions(calls))
    ensures MutuallyExclusive(states[|movers|]) && UsesExclusive(states[|movers|])
    ensures NoCycles(states[|movers|]) && Progress(states[|movers|])
  {
    SessionsStart(calls);
    RunKeeps(states, movers);
    InvIsSafe(states[|movers|]);
  }

  /** The order matters: two processes that take two mutexes in opposite orders can stop each other for good. */
  lemma OppositeOrdersDeadlock(s0: State, s1: State, s2: State, s3: State, s4: State)
    requires s0.mutexes == map[0 := Sem(1, []), 1 := Sem(1, [])]
    requires s0.threads == map[7 := Thread([Lock(0), Lock(1), Unlock(1), Unlock(0)], 0),
                               8 := Thread([Lock(1), Lock(0), Unlock(0), Unlock(1)], 0)]
    requires Enabled(s0, 7) && s1 == Step(s0, 7) && Enabled(s1, 8) && s2 == Step(s1, 8)
    requires Enabled(s2, 7) && s3 == Step(s2, 7) && Enabled(s3, 8) && s4 == Step(s3, 8)
    ensures forall p :: !Enabled(s4, p)
    ensures WaitChain(s4, [7, 8, 7], [1, 0])
  {
    assert s4.mutexes[0] == Sem(-1, [8]) && s4.mutexes[1] == Sem(-1, [7]);
    assert s4.threads[7].script[..2] == [Lock(0), Lock(1)] && s4.threads[8].script[..2] == [Lock(1), Lock(0)];
    assert [Lock(0), Lock(1)][..1] == [Lock(0)] && [Lock(1), Lock(0)][..1] == [Lock(1)];
    assert Claims([Lock(0)]) == {0} && Claims([Lock(1)]) == {1};
    forall i | 0 <= i < 2 ensures WaitsFor(s4, [7, 8, 7][i], [1, 0][i], [7, 8, 7][i + 1]) {
      assert Claiming(s4.threads[7], 0) && Claiming(s4.threads[8], 1);
    }
  }
}
