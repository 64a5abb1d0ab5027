/**
  The round-robin scheduler: which process runs next, when, and how the list of
  processes changes.

  The first half is about lists as values: the cyclic distance from the running
  process to a waiting one, and what each event does to it.  The second half is the
  kernel's code on the linked list.
 */
module Scheduling {

  import opened Collections
  import opened Processes
  import Semaphores

  // -- positions on the cycle -------------------------------------------------

  /** The position `d` places after `i` on a cycle of `n`. */
  function At(i: nat, d: nat, n: nat): (k: nat)
    requires i < n && d <= n
    ensures k < n && (k == i + d || k == i + d - n)
  {
    if i + d < n then i + d else i + d - n
  }

  /** How many places after `i` position `j` is: 1 to `n`, `n` when they are the same. */
  function Gap(i: nat, j: nat, n: nat): (d: nat)
    requires i < n && j < n
    ensures 1 <= d <= n && At(i, d, n) == j
  {
    if j > i then j - i else j - i + n
  }

  lemma GapIs(i: nat, d: nat, n: nat)
    requires i < n && 1 <= d <= n
    ensures At(i, d, n) < n && Gap(i, At(i, d, n), n) == d
  {}

  function IndexOf<T(==)>(list: seq<T>, x: T): (i: nat)
    requires x in list
    ensures i < |list| && list[i] == x
  {
    if list[0] == x then 0 else 1 + IndexOf(list[1..], x)
  }

  lemma IndexIs<T>(list: seq<T>, i: nat)
    requires NoRepeats(list) && i < |list|
    ensures IndexOf(list, list[i]) == i
  {}

  /** How many turns of the list lie between `from` and `to`. */
  function Distance<T(==)>(list: seq<T>, from: T, to: T): (d: nat)
    requires from in list && to in list
    ensures 1 <= d <= |list|
  {
    Gap(IndexOf(list, from), IndexOf(list, to), |list|)
  }

  // -- events -----------------------------------------------------------------

  datatype Sched<T> = Sched(list: seq<T>, current: T)

  /** A switch with the set of processes that can run at that moment, or a change of the list. */
  datatype Event<T> = Switch(ready: set<T>) | Insert(x: T) | Remove(x: T)

  ghost predicate GoodSched<T>(s: Sched<T>) {
    NoRepeats(s.list) && s.current in s.list
  }

  /** `next` is the first after `current`, going round, that is in `ready`. */
  ghost predicate FirstReady<T>(list: seq<T>, ready: set<T>, current: T, next: T)
    requires current in list && next in list
  {
    var i, d := IndexOf(list, current), Distance(list, current, next);
    next in ready && forall e | 1 <= e < d :: list[At(i, e, |list|)] !in ready
  }

  function Without<T(==)>(list: seq<T>, x: T): seq<T> {
    if list == [] then [] else if list[0] == x then list[1..] else [list[0]] + Without(list[1..], x)
  }

  ghost predicate Step<T>(s: Sched<T>, e: Event<T>, t: Sched<T>)
    requires GoodSched(s)
  {
    match e
    case Switch(ready) => t.list == s.list && t.current in s.list && FirstReady(s.list, ready, s.current, t.current)
    case Insert(x) => x !in s.list && t == Sched(s.list + [x], s.current)
    case Remove(x) => x != s.current && t == Sched(Without(s.list, x), s.current)
  }

  // -- what events do to the distance ------------------------------------------

  /** A switch that passes a ready process over brings it nearer. */
  lemma SwitchNearer<T>(s: Sched<T>, ready: set<T>, t: Sched<T>, p: T)
    requires GoodSched(s) && Step(s, Switch(ready), t) && p in s.list && p in ready && t.current != p
    ensures Distance(t.list, t.current, p) < Distance(s.list, s.current, p)
  {
    var i, d := IndexOf(s.list, s.current), Distance(s.list, s.current, t.current);
    var e := Distance(s.list, s.current, p);
    assert s.list[At(i, e, |s.list|)] == p;
    IndexIs(s.list, At(i, d, |s.list|));
    IndexIs(s.list, At(i, e, |s.list|));
    assert d < e;
  }

  lemma {:induction false} AppendIndex<T>(list: seq<T>, x: T, y: T)
    requires y in list
    ensures y in list + [x] && IndexOf(list + [x], y) == IndexOf(list, y)
  {
    if list[0] != y {
      assert (list + [x])[1..] == list[1..] + [x];
      AppendIndex(list[1..], x, y);
    }
  }

  /** A process put at the tail moves others at most one place away. */
  lemma InsertFarther<T>(s: Sched<T>, x: T, p: T)
    requires GoodSched(s) && x !in s.list && p in s.list
    ensures p in s.list + [x] && s.current in s.list + [x]
    ensures Distance(s.list + [x], s.current, p) <= Distance(s.list, s.current, p) + 1
  {
    AppendIndex(s.list, x, s.current);
    AppendIndex(s.list, x, p);
  }

  lemma {:induction false} WithoutIndex<T>(list: seq<T>, x: T, y: T)
    requires NoRepeats(list) && y in list && y != x
    ensures NoRepeats(Without(list, x)) && y in Without(list, x)
    ensures forall z :: z in Without(list, x) <==> z in list && z != x
    ensures |Without(list, x)| == |list| - (if x in list then 1 else 0)
    ensures IndexOf(Without(list, x), y) ==
      IndexOf(list, y) - (if x in list && IndexOf(list, x) < IndexOf(list, y) then 1 else 0)
  {
    if list[0] == x {
      assert list == [x] + list[1..];
      IndexOfTail(list, y);
    } else {
      WithoutRest(list, x);
      if list[0] != y {
        WithoutIndex(list[1..], x, y);
      }
    }
  }

  lemma IndexOfTail<T>(list: seq<T>, y: T)
    requires NoRepeats(list) && list != [] && y in list && y != list[0]
    ensures y in list[1..] && IndexOf(list, y) == 1 + IndexOf(list[1..], y) && list[0] !in list[1..]
  {}

  lemma {:induction false} WithoutRest<T>(list: seq<T>, x: T)
    requires NoRepeats(list)
    ensures NoRepeats(Without(list, x)) && forall z :: z in Without(list, x) <==> z in list && z != x
    ensures |Without(list, x)| == |list| - (if x in list then 1 else 0)
  {
    if list != [] {
      assert list == [list[0]] + list[1..];
      if list[0] != x {
        WithoutRest(list[1..], x);
        InsertFront(list[0], Without(list[1..], x));
      }
    }
  }

  lemma {:induction false} WithoutAt<T>(list: seq<T>, k: nat)
    requires NoRepeats(list) && k < |list|
    ensures Without(list, list[k]) == list[..k] + list[k + 1..]
  {
    if k > 0 {
      WithoutAt(list[1..], k - 1);
      assert list[..k] == [list[0]] + list[1..][..k - 1];
    }
  }

  lemma WithoutFirst<T>(list: seq<T>, other: T)
    requires list != [] && other in list && other != list[0]
    ensures |list| > 1 && other in list[1..] && Without(list, list[0]) == list[1..]
  {
    assert list == [list[0]] + list[1..];
  }

  lemma {:induction false} WithoutAbsent<T>(list: seq<T>, x: T)
    requires x !in list
    ensures Without(list, x) == list
  {
    if list != [] {
      WithoutAbsent(list[1..], x);
    }
  }

  /** A process taken off the list never moves the others farther away. */
  lemma RemoveNotFarther<T>(s: Sched<T>, x: T, p: T)
    requires GoodSched(s) && x != s.current && p in s.list && p != x
    ensures GoodSched(Sched(Without(s.list, x), s.current)) && p in Without(s.list, x)
    ensures Distance(Without(s.list, x), s.current, p) <= Distance(s.list, s.current, p)
  {
    WithoutIndex(s.list, x, s.current);
    WithoutIndex(s.list, x, p);
  }

  // -- fairness ---------------------------------------------------------------

  ghost predicate Run<T>(states: seq<Sched<T>>, events: seq<Event<T>>) {
    && |states| == |events| + 1
    && forall i | 0 <= i < |events| :: GoodSched(states[i]) && Step(states[i], events[i], states[i + 1])
  }

  /** In every event of a run `p` is listed and could run, but another process is chosen. */
  ghost predicate PassedOver<T>(states: seq<Sched<T>>, events: seq<Event<T>>, p: T)
    requires |states| == |events| + 1
  {
    && p in states[0].list
    && forall i | 0 <= i < |events| ::
         match events[i]
         case Switch(ready) => p in ready && states[i + 1].current != p
         case Insert(x) => true
         case Remove(x) => x != p
  }

  function Switches<T>(events: seq<Event<T>>): nat {
    if events == [] then 0 else Switches(events[..|events| - 1]) + if events[|events| - 1].Switch? then 1 else 0
  }

  function Inserts<T>(events: seq<Event<T>>): nat {
    if events == [] then 0 else Inserts(events[..|events| - 1]) + if events[|events| - 1].Insert? then 1 else 0
  }

  /** One event: a switch brings `p` nearer, a removal no farther, an insertion at most one farther. */
  lemma EventDistance<T>(s: Sched<T>, e: Event<T>, t: Sched<T>, p: T)
    requires GoodSched(s) && Step(s, e, t) && p in s.list
    requires e.Switch? ==> p in e.ready && t.current != p
    requires e.Remove? ==> e.x != p
    ensures GoodSched(t) && p in t.list
    ensures Distance(t.list, t.current, p) + (if e.Switch? then 1 else 0)
      <= Distance(s.list, s.current, p) + (if e.Insert? then 1 else 0)
  {
    match e
    case Switch(ready) => SwitchNearer(s, ready, t, p);
    case Insert(x) => InsertFarther(s, x, p);
    case Remove(x) => RemoveNotFarther(s, x, p);
  }

  lemma {:induction false} DistanceOverRun<T>(states: seq<Sched<T>>, events: seq<Event<T>>, p: T)
    requires Run(states, events) && GoodSched(states[0]) && PassedOver(states, events, p)
    ensures GoodSched(states[|events|]) && p in states[|events|].list
    ensures Distance(states[|events|].list, states[|events|].current, p) + Switches(events)
      <= Distance(states[0].list, states[0].current, p) + Inserts(events)
  {
    if events != [] {
      var n := |events| - 1;
      DistanceOverRun(states[..n + 1], events[..n], p);
      EventDistance(states[n], events[n], states[n + 1], p);
    }
  }

  /**
    Fairness: a process that stays able to run is passed over fewer times than the
    list was long, plus once for each process inserted meanwhile; removals do not hurt.
   */
  lemma RunsWithinListLength<T>(states: seq<Sched<T>>, events: seq<Event<T>>, p: T)
    requires Run(states, events) && GoodSched(states[0]) && PassedOver(states, events, p)
    ensures Switches(events) < |states[0].list| + Inserts(events)
  {
    DistanceOverRun(states, events, p);
  }

  /** Whoever is nearer than the next one is not in `ready`. */
  lemma NearerNotReady<T>(list: seq<T>, ready: set<T>, current: T, next: T)
    requires current in list && next in list && FirstReady(list, ready, current, next)
    ensures next in ready
    ensures forall k | 0 <= k < |list| && Distance(list, current, list[k]) < Distance(list, current, next) :: list[k] !in ready
  {
    var i := IndexOf(list, current);
    forall k | 0 <= k < |list| && Distance(list, current, list[k]) < Distance(list, current, next) ensures list[k] !in ready {
      assert list[At(i, Distance(list, current, list[k]), |list|)] == list[k];
    }
  }

  // -- the kernel's list ------------------------------------------------------

  predicate CanRun(st: Status) {
    st != DEAD && st != BLOCKED
  }

  /** `list` is a chain of `next` links from `head`; where the last one's link goes is left open. */
  ghost predicate Chain(list: seq<Process>, head: Process?)
    reads list
  {
    && list != [] && head == list[0] && NoRepeats(list)
    && forall i | 0 <= i < |list| - 1 :: list[i].next == list[i + 1]
  }

  /** `list` is the chain of `next` links from `head` to the end. */
  ghost predicate Linked(list: seq<Process>, head: Process?)
    reads list
  {
    && (list == [] ==> head == null)
    && (list != [] ==> Chain(list, head) && list[|list| - 1].next == null)
  }

  lemma LinkedNext(list: seq<Process>, head: Process?, k: nat)
    requires Linked(list, head) && k < |list|
    ensures list[k].next == if k + 1 < |list| then list[k + 1] else null
  {}

  ghost function Ready(list: seq<Process>): set<Process>
    reads list
  {
    set p | p in list && CanRun(p.status) :: p
  }

  // -- which processes the loops come to ----------------------------------------

  /** Links lead from processes in `nodes` to processes in `nodes`. */
  ghost predicate Closed(nodes: seq<Process>, head: Process?)
    reads nodes
  {
    head != null && head in nodes && forall q | q in nodes :: q.next == null || q.next in nodes
  }

  /** The process the loop of `schedule` has come to after `d` turns from `q`: along the links, from an end to the head. */
  ghost function Visited(nodes: seq<Process>, head: Process?, q: Process, d: nat): (r: Process)
    requires Closed(nodes, head) && q in nodes
    reads nodes
    ensures r in nodes
  {
    if d == 0 then q else
      var before := Visited(nodes, head, q, d - 1);
      if before.next != null then before.next else head
  }

  /** What the walk of `insert_process` has come to after `d` turns from `q`, null past an end. */
  ghost function Walked(nodes: seq<Process>, head: Process?, q: Process, d: nat): (r: Process?)
    requires Closed(nodes, head) && q in nodes
    reads nodes
    ensures r == null || r in nodes
  {
    if d == 0 then q else
      var before := Walked(nodes, head, q, d - 1);
      if before == null then null else before.next
  }

  /** `schedule` goes from `from` to `to`: the first one it comes to that can run. */
  ghost predicate Chosen(nodes: seq<Process>, head: Process?, from: Process, to: Process)
    requires Closed(nodes, head) && from in nodes
    reads nodes
  {
    exists d: nat :: d >= 1 && FirstAt(nodes, head, from, to, d)
  }

  ghost predicate FirstAt(nodes: seq<Process>, head: Process?, from: Process, to: Process, d: nat)
    requires Closed(nodes, head) && from in nodes
    reads nodes
  {
    && Visited(nodes, head, from, d) == to && CanRun(Visited(nodes, head, from, d).status)
    && forall e: nat | 1 <= e < d :: !CanRun(Visited(nodes, head, from, e).status)
  }

  /** A ring the loop of `schedule` goes round. */
  ghost predicate Ring(nodes: seq<Process>, head: Process?, ring: seq<Process>)
    reads nodes, ring
  {
    && Closed(nodes, head) && (forall q | q in ring :: q in nodes)
    && forall j | 0 <= j < |ring| ::
         (if ring[j].next != null then ring[j].next else head) == ring[At(j, 1, |ring|)]
  }

  /** Once on a ring, the loop goes round it. */
  lemma {:induction false} RingPlace(nodes: seq<Process>, head: Process?, ring: seq<Process>, i: nat, d: nat)
    requires Ring(nodes, head, ring) && i < |ring| && d <= |ring|
    ensures Visited(nodes, head, ring[i], d) == ring[At(i, d, |ring|)]
  {
    if d > 0 {
      RingPlace(nodes, head, ring, i, d - 1);
      assert At(i, d, |ring|) == At(At(i, d - 1, |ring|), 1, |ring|);
    }
  }

  lemma {:induction false} StaysOnRing(nodes: seq<Process>, head: Process?, ring: seq<Process>, q: Process, d: nat)
    requires Ring(nodes, head, ring) && q in ring
    ensures Visited(nodes, head, q, d) in ring
  {
    if d > 0 {
      StaysOnRing(nodes, head, ring, q, d - 1);
      var j :| 0 <= j < |ring| && ring[j] == Visited(nodes, head, q, d - 1);
      assert ring[At(j, 1, |ring|)] in ring;
    }
  }

  /** From a process on a ring the loop comes to those on the ring, each of them, and no others, however long it goes on. */
  lemma VisitsExactly(nodes: seq<Process>, head: Process?, ring: seq<Process>, q: Process, r: Process)
    requires Ring(nodes, head, ring) && q in ring
    ensures r in ring <==> exists d: nat :: d >= 1 && Visited(nodes, head, q, d) == r
  {
    if r in ring {
      var i :| 0 <= i < |ring| && ring[i] == q;
      var j :| 0 <= j < |ring| && ring[j] == r;
      RingPlace(nodes, head, ring, i, Gap(i, j, |ring|));
      assert Visited(nodes, head, q, Gap(i, j, |ring|)) == r;
    }
    if d: nat :| d >= 1 && Visited(nodes, head, q, d) == r {
      StaysOnRing(nodes, head, ring, q, d);
    }
  }

  /** A proper list is a ring. */
  lemma ListIsRing(list: seq<Process>, head: Process?)
    requires Linked(list, head) && list != []
    ensures Ring(list, head, list)
  {
    forall q | q in list ensures q.next == null || q.next in list {
      var i :| 0 <= i < |list| && list[i] == q;
      LinkedNext(list, head, i);
    }
    forall j | 0 <= j < |list| ensures (if list[j].next != null then list[j].next else head) == list[At(j, 1, |list|)] {
      LinkedNext(list, head, j);
    }
  }

  /** On a proper list the process chosen is the first after the running one in cyclic order. */
  lemma ChosenIsFirstReady(list: seq<Process>, head: Process?, from: Process, to: Process)
    requires Linked(list, head) && from in list && Closed(list, head) && Chosen(list, head, from, to)
    ensures to in list && FirstReady(list, Ready(list), from, to)
  {
    ListIsRing(list, head);
    var d: nat :| d >= 1 && FirstAt(list, head, from, to, d);
    var i, n, f := IndexOf(list, from), |list|, Distance(list, from, to);
    RingPlace(list, head, list, i, f);
    assert !(f < d);
    if d < f {
      RingPlace(list, head, list, i, d);
      IndexIs(list, At(i, d, n));
      GapIs(i, d, n);
    }
    forall e | 1 <= e < f ensures list[At(i, e, n)] !in Ready(list) {
      RingPlace(list, head, list, i, e);
    }
  }

  class Scheduler {
    var processList: Process?
    var current: Process
    /** The processes listed, in order. */
    ghost var list: seq<Process>

    ghost predicate Valid()
      reads this, list
    {
      Linked(list, processList) && current in list
    }

    ghost function View(): Sched<Process>
      reads this
    {
      Sched(list, current)
    }

    /** `sched_init`: the running code becomes the first process. */
    constructor (first: Process)
      requires first.next == null
      modifies first
      ensures Valid() && list == [first] && current == first && first.status == RUNNING
    {
      processList, current, list := first, first, [first];
      new;
      first.status := RUNNING;
    }

    /** One turn of the loop of `schedule`: to the next process, from an end to the head. */
    method MoveOn(ghost nodes: seq<Process>)
      requires Closed(nodes, processList) && current in nodes
      modifies this`current
      ensures current in nodes && current == if old(current).next != null then old(current).next else processList
    {
      if current.next != null {
        current := current.next;
      } else {
        current := processList;
      }
    }

    /**
      The loop of `schedule`: from the running process to the first that can run,
      whatever the links are.  Turn `far` comes to one that can.
     */
    method GoRound(ghost nodes: seq<Process>, ghost far: nat)
      requires Closed(nodes, processList) && current in nodes
      requires far >= 1 && CanRun(Visited(nodes, processList, current, far).status)
      modifies this`current
      ensures Chosen(nodes, processList, old(current), current)
      ensures current in nodes && current.status != DEAD && current.status != BLOCKED
      ensures exists d: nat :: (
        && d >= 1 && Visited(nodes, processList, old(current), d) == current
        && forall e: nat | 1 <= e < d :: (
             var p := Visited(nodes, processList, old(current), e);
             p.status == DEAD || p.status == BLOCKED))
    {
      ghost var start, d := current, 0;
      while true
        invariant 0 <= d < far && current in nodes && current == Visited(nodes, processList, start, d)
        invariant forall e: nat | 1 <= e <= d :: !CanRun(Visited(nodes, processList, start, e).status)
        decreases far - d
      {
        MoveOn(nodes);
        d := d + 1;
        if current.status == DEAD || current.status == BLOCKED {
        } else {
          assert FirstAt(nodes, processList, start, current, d);
          return;
        }
      }
    }

    /**
      `schedule`: saves the running process's context, chooses the first process after
      it that can run, and hands out that one's context.  It needs one that can; see
      `SpinsExactlyWhen`.
     */
    method Schedule(context: nat) returns (next: nat)
      requires Valid() && exists p | p in list :: p.status != DEAD && p.status != BLOCKED
      modifies this`current, list
      ensures Valid() && list == old(list)
      ensures FirstReady(list, old(Ready(list)), old(current), current)
      ensures forall p | p in list && p == current :: old(p.status) != DEAD && old(p.status) != BLOCKED
      ensures forall k | 0 <= k < |list| && Distance(list, old(current), list[k]) < Distance(list, old(current), current) ::
        old(list[k].status) == DEAD || old(list[k].status) == BLOCKED
      ensures forall p | p in list ::
        p.next == old(p.next) && p.waitNext == old(p.waitNext)
        && p.status == (if p == current then RUNNING
                        else if p == old(current) && old(p.status) != DEAD && old(p.status) != BLOCKED then READY
                        else old(p.status))
        && p.context == (if p == old(current) then context else old(p.context))
      ensures next == current.context
    {
      ghost var ready, was := Ready(list), current;
      ghost var r :| r in list && r.status != DEAD && r.status != BLOCKED;
      assert r in ready;
      assert forall p | p in list :: p in ready <==> p.status != DEAD && p.status != BLOCKED;
      next := Switch(context);
      NearerNotReady(list, ready, was, current);
    }

    /** The same, in terms of the set of processes that can run. */
    method Switch(context: nat) returns (next: nat)
      requires Valid() && Ready(list) != {}
      modifies this`current, list
      ensures Valid() && list == old(list)
      ensures FirstReady(list, old(Ready(list)), old(current), current)
      ensures forall p | p in list ::
        p.next == old(p.next) && p.waitNext == old(p.waitNext)
        && p.status == (if p == current then RUNNING
                        else if p == old(current) && old(p.status) != DEAD && old(p.status) != BLOCKED then READY
                        else old(p.status))
        && p.context == (if p == old(current) then context else old(p.context))
      ensures next == current.context
    {
      SaveContext(context);
      Choose();
      next := Resume();
    }

    /** The loop on a proper list with a process that can run. */
    method Choose()
      requires Valid() && Ready(list) != {}
      modifies this`current
      ensures Valid() && list == old(list) && FirstReady(list, Ready(list), old(current), current)
    {
      ghost var start, far := current, SpinsNot(list, processList, current);
      GoRound(list, far);
      ChosenIsFirstReady(list, processList, start, current);
    }

    /** The running process is put back among those that can run, unless it is dead or blocked. */
    method SaveContext(context: nat)
      requires Valid()
      modifies current`context, current`status
      ensures Valid() && Ready(list) == old(Ready(list)) && current.context == context
      ensures current.status == if old(CanRun(current.status)) then READY else old(current.status)
    {
      current.context := context;
      if current.status != DEAD && current.status != BLOCKED {
        current.status := READY;
      }
      assert forall p | p in list :: CanRun(p.status) <==> old(CanRun(p.status));
    }

    method Resume() returns (next: nat)
      requires Valid()
      modifies current`status
      ensures Valid() && current.status == RUNNING && next == current.context
    {
      current.status := RUNNING;
      return current.context;
    }

    /** `mark_current_proc_as_dead`: whoever runs next, it is not the one that called, which stays dead. */
    method MarkCurrentDead(context: nat) returns (next: nat)
      requires Valid() && exists p | p in list && p != current :: p.status != DEAD && p.status != BLOCKED
      modifies this`current, list
      ensures Valid() && list == old(list) && current != old(current) && old(current).status == DEAD
      ensures Ready(list) == old(Ready(list)) - {old(current)}
      ensures FirstReady(list, old(Ready(list)) - {old(current)}, old(current), current)
      ensures forall p | p in list && p == current :: old(p.status) != DEAD && old(p.status) != BLOCKED
      ensures forall p | p in list && p != current && p != old(current) :: p.status == old(p.status)
      ensures current.status == RUNNING && next == current.context
    {
      ghost var ready := Ready(list);
      ghost var r :| r in list && r != current && r.status != DEAD && r.status != BLOCKED;
      assert r in ready;
      SetDead();
      assert r in Ready(list);
      next := YieldDead(context);
      assert current in ready;
    }

    /** The yield of a dead process. */
    method YieldDead(context: nat) returns (next: nat)
      requires Valid() && current.status == DEAD && Ready(list) != {}
      modifies this`current, list
      ensures Valid() && list == old(list) && current != old(current) && old(current).status == DEAD
      ensures Ready(list) == old(Ready(list)) && current in old(Ready(list))
      ensures FirstReady(list, old(Ready(list)), old(current), current)
      ensures forall p | p in list && p != current :: p.status == old(p.status)
      ensures current.status == RUNNING && next == current.context
    {
      ghost var ready, was := Ready(list), current;
      next := Switch(context);
      NearerNotReady(list, ready, was, current);
    }

    method SetDead()
      requires Valid()
      modifies current`status
      ensures Valid() && current.status == DEAD && Ready(list) == old(Ready(list)) - {current}
      ensures forall p | p in list && p != current :: p.status == old(p.status)
    {
      current.status := DEAD;
    }

    /**
      `insert_process`: behind the last process.  A process with a `next` of its own, as
      a forked one has unless its parent is the last, drags that along; see
      `InsertedEndsExactlyWhen` and `OnlyTheRestRuns`.
     */
    method InsertProcess(p: Process)
      requires Valid() && p !in list && (p.next == null || p.next in list)
      modifies this`list, list
      ensures list == old(list) + [p] && current == old(current) && processList == old(processList)
      ensures Chain(list, processList) && (Valid() <==> p.next == null) && unchanged(p)
      ensures forall q | q in old(list) ::
        q.status == old(q.status) && q.waitNext == old(q.waitNext) && q.context == old(q.context)
    {
      var last := processList;
      ghost var k := 0;
      while last.next != null
        invariant 0 <= k < |list| && last == list[k]
        decreases |list| - k
      {
        assert k < |list| - 1 ==> list[k].next == list[k + 1];
        last, k := last.next, k + 1;
      }
      LinkedNext(list, processList, k);
      last.next := p;
      list := list + [p];
    }

    /** Takes the first process out of the chain. */
    method DropFirst(p: Process)
      requires Valid() && |list| > 1 && p == list[0] && current in list[1..]
      modifies this`list, this`processList, p`next
      ensures Valid() && list == old(list)[1..] && p.next == null
    {
      assert list[0].next == list[1];
      processList := processList.next;
      p.next := null;
      list := list[1..];
    }

    /** Takes the process behind `walker` out of the chain. */
    method DropAfter(walker: Process, p: Process, ghost k: nat, ghost rest: seq<Process>)
      requires Valid() && k + 1 < |list| && walker == list[k] && p == list[k + 1]
      requires rest == list[..k + 1] + list[k + 2..] && current in rest && NoRepeats(rest)
      modifies this`list, walker`next, p`next
      ensures Valid() && list == rest && p.next == null
    {
      assert k + 2 < |list| ==> list[k + 1].next == list[k + 2];
      assert forall i | 0 <= i < |rest| :: rest[i] == if i <= k then list[i] else list[i + 1];
      walker.next := p.next;
      p.next := null;
      list := rest;
    }

    /** The loop of `remove_proc_from_list`, when `p` is not the first process. */
    method RemoveBehind(p: Process)
      requires Valid() && p != current && p != processList
      modifies this`list, list`next, p`next
      ensures Valid()
      ensures list == Without(old(list), p)
      ensures p in old(list) ==> p.next == null
    {
      var walker := processList;
      ghost var k := 0;
      while walker.next != null
        invariant 0 <= k < |list| && walker == list[k] && p !in list[..k + 1]
        decreases |list| - k
      {
        assert k < |list| - 1 ==> list[k].next == list[k + 1];
        if walker.next == p {
          WithoutAt(list, k + 1);
          WithoutRest(list, p);
          DropAfter(walker, p, k, Without(list, p));
          return;
        }
        walker, k := walker.next, k + 1;
      }
      LinkedNext(list, processList, k);
      assert list[..k + 1] == list;
      WithoutAbsent(list, p);
    }

    /** `remove_proc_from_list`, as one step; a process that is not listed changes nothing. */
    method RemoveProcess(p: Process?)
      requires Valid() && p != current
      modifies this`list, this`processList, list`next, p
      ensures Valid()
      ensures p == null ==> list == old(list)
      ensures p != null ==> p.status == old(p.status) && p.waitNext == old(p.waitNext) && p.context == old(p.context)
      ensures p != null ==> list == Without<Process>(old(list), p) && (p in old(list) ==> p.next == null)
    {
      if p == null || processList == null {
        return;
      }
      if processList == p {
        WithoutFirst(list, current);
        DropFirst(p);
        return;
      }
      RemoveBehind(p);
    }
  }

  // -- processes that wait on a semaphore ----------------------------------------

  /** No process in a semaphore's queue is one `schedule` goes to, whatever the links are. */
  lemma QueuedNotChosen(sems: set<Semaphores.Semaphore>, procs: set<Process>, nodes: seq<Process>, head: Process?,
                        from: Process, to: Process)
    requires Semaphores.QueuesInv(sems, procs) && Closed(nodes, head) && from in nodes && Chosen(nodes, head, from, to)
    ensures to in procs ==> !Semaphores.InQueue(to, sems)
  {
    assert to in procs ==> (to.status == BLOCKED <==> Semaphores.InQueue(to, sems));
  }

  /** A switch gives the processor to nobody who waits on a semaphore, and leaves all queues as they are. */
  method SwitchKeepsQueues(s: Scheduler, context: nat, ghost sems: set<Semaphores.Semaphore>, ghost procs: set<Process>)
    returns (next: nat)
    requires s.Valid() && Semaphores.QueuesInv(sems, procs) && forall p | p in s.list :: p in procs
    requires exists p | p in s.list :: p in procs && !Semaphores.InQueue(p, sems) && p.status != DEAD
    modifies s`current, s.list
    ensures s.Valid() && s.list == old(s.list) && next == s.current.context
    ensures Semaphores.QueuesInv(sems, procs) && !Semaphores.InQueue(s.current, sems)
    ensures forall m | m in sems :: m.View() == old(m.View())
    ensures forall p | p in s.list && p == s.current :: !old(Semaphores.InQueue(p, sems)) && old(p.status) != DEAD
  {
    ghost var r :| r in s.list && r in procs && !Semaphores.InQueue(r, sems) && r.status != DEAD;
    assert r.status != BLOCKED;
    forall p | p in s.list ensures p.status == BLOCKED <==> Semaphores.InQueue(p, sems) {
      assert p in procs;
    }
    next := s.Schedule(context);
    QueuesStay(Everybody(sems, procs));
  }

  datatype Everybody = Everybody(sems: set<Semaphores.Semaphore>, procs: set<Process>)

  /** If nobody becomes blocked or unblocked and no link of a queue changes, the queues are as they were. */
  twostate lemma QueuesStay(all: Everybody)
    requires old(Semaphores.QueuesInv(all.sems, all.procs))
    requires forall m | m in all.sems :: unchanged(m)
    requires forall p | p in all.procs ::
      p.waitNext == old(p.waitNext) && (p.status == BLOCKED <==> old(p.status) == BLOCKED)
    ensures Semaphores.QueuesInv(all.sems, all.procs)
  {
    var Everybody(sems, procs) := all;
    forall m | m in sems ensures Semaphores.Waiting(m, procs) {
      assert old(Semaphores.Waiting(m, procs));
    }
    forall m, n | m in sems && n in sems && m != n ensures Semaphores.NoCommon(m.queue, n.queue) {
      assert old(Semaphores.NoCommon(m.queue, n.queue));
    }
    forall p | p in procs ensures p.status == BLOCKED <==> Semaphores.InQueue(p, sems) {
      assert old(p.status) == BLOCKED <==> old(Semaphores.InQueue(p, sems));
    }
  }

  // -- when the loops come to an end --------------------------------------------

  /** The loop of `schedule` stops exactly when some listed process can run; otherwise it goes on for ever. */
  lemma SpinsExactlyWhen(list: seq<Process>, head: Process?, q: Process)
    requires Linked(list, head) && q in list
    ensures Closed(list, head)
    ensures (exists d: nat :: d >= 1 && Visited(list, head, q, d).status != DEAD && Visited(list, head, q, d).status != BLOCKED)
      <==> exists p | p in list :: p.status != DEAD && p.status != BLOCKED
    ensures (exists d: nat :: d >= 1 && CanRun(Visited(list, head, q, d).status)) <==> Ready(list) != {}
  {
    ListIsRing(list, head);
    if d: nat :| d >= 1 && CanRun(Visited(list, head, q, d).status) {
      assert Visited(list, head, q, d) in Ready(list);
    }
    if r :| r in list && r.status != DEAD && r.status != BLOCKED {
      assert r in Ready(list);
    }
    if Ready(list) != {} {
      var r :| r in Ready(list);
      VisitsExactly(list, head, list, q, r);
    }
  }

  /** A turn at which the loop of `schedule` stops. */
  ghost function SpinsNot(list: seq<Process>, head: Process?, q: Process): (far: nat)
    requires Linked(list, head) && q in list && Ready(list) != {}
    reads list
    ensures Closed(list, head) && far >= 1 && CanRun(Visited(list, head, q, far).status)
  {
    SpinsExactlyWhen(list, head, q);
    var far: nat :| far >= 1 && CanRun(Visited(list, head, q, far).status);
    far
  }

  // -- a process inserted with a `next` of its own -------------------------------

  lemma InsertedClosed(list: seq<Process>, p: Process, head: Process?)
    requires list != [] && Chain(list + [p], head) && (p.next == null || p.next in list)
    ensures Closed(list + [p], head)
    ensures forall q | q in list :: q.next != null
  {
    var all := list + [p];
    assert all[0] in all;
    forall q | q in list ensures q.next != null && q.next in all {
      var i :| 0 <= i < |list| && list[i] == q;
      assert all[i].next == all[i + 1];
    }
  }

  lemma {:induction false} WalkPlace(all: seq<Process>, head: Process?, d: nat)
    requires Chain(all, head) && Closed(all, head) && d < |all|
    ensures Walked(all, head, all[0], d) == all[d]
  {
    if d > 0 {
      WalkPlace(all, head, d - 1);
      assert all[d - 1].next == all[d];
    }
  }

  lemma {:induction false} NeverNull(all: seq<Process>, head: Process?, q: Process, d: nat)
    requires Closed(all, head) && q in all && forall x | x in all :: x.next != null
    ensures Walked(all, head, q, d) != null
  {
    if d > 0 {
      NeverNull(all, head, q, d - 1);
    }
  }

  /**
    After a process is appended, the walk of the next `insert_process` comes to an end
    exactly when the appended one had no `next`; otherwise it walks for ever.
   */
  lemma InsertedEndsExactlyWhen(list: seq<Process>, p: Process, head: Process?)
    requires list != [] && Chain(list + [p], head) && (p.next == null || p.next in list)
    ensures Closed(list + [p], head)
    ensures (exists d: nat :: Walked(list + [p], head, list[0], d) == null) <==> p.next == null
  {
    var all := list + [p];
    InsertedClosed(list, p, head);
    if p.next == null {
      WalkPlace(all, head, |list|);
      assert Walked(all, head, all[0], |list| + 1) == null;
    } else if d: nat :| Walked(all, head, list[0], d) == null {
      NeverNull(all, head, list[0], d);
    }
  }

  /** What is behind the appended process's `next` is a ring without an end. */
  lemma RestIsRing(list: seq<Process>, p: Process, head: Process?, k: nat)
    requires Chain(list + [p], head) && k < |list| && p.next == list[k]
    ensures Ring(list + [p], head, list[k..] + [p])
  {
    var all, ring := list + [p], list[k..] + [p];
    InsertedClosed(list, p, head);
    forall j | 0 <= j < |ring| ensures ring[j] in all && ring[j].next == ring[At(j, 1, |ring|)] {
      assert ring[j] == all[k + j];
      if j + 1 < |ring| {
        assert all[k + j].next == all[k + j + 1];
      }
    }
  }

  /**
    And from the process before the appended one's `next` on, as a forking parent is,
    the loop of `schedule` comes to just those behind: no process before, the parent
    included, is ever come to again.
   */
  lemma OnlyTheRestRuns(list: seq<Process>, p: Process, head: Process?, k: nat, i: nat, q: Process)
    requires Chain(list + [p], head) && k < |list| && p.next == list[k] && k <= i + 1 && i <= |list|
    ensures Closed(list + [p], head)
    ensures q in list[k..] + [p] <==> exists d: nat :: d >= 1 && Visited(list + [p], head, (list + [p])[i], d) == q
  {
    var all, ring := list + [p], list[k..] + [p];
    RestIsRing(list, p, head, k);
    if k <= i {
      assert ring[i - k] == all[i];
      VisitsExactly(all, head, ring, all[i], q);
    } else {
      assert ring[0] == all[k] && all[i].next == all[k];
      FirstTurn(all, head, all[i], ring, q);
    }
  }

  lemma {:induction false} OneTurnOn(nodes: seq<Process>, head: Process?, q: Process, r: Process, d: nat)
    requires Closed(nodes, head) && q in nodes && q.next == r && r in nodes
    ensures Visited(nodes, head, q, d + 1) == Visited(nodes, head, r, d)
  {
    if d > 0 {
      OneTurnOn(nodes, head, q, r, d - 1);
    } else {
      assert Visited(nodes, head, q, 0) == q;
    }
  }

  lemma FirstTurn(nodes: seq<Process>, head: Process?, q: Process, ring: seq<Process>, r: Process)
    requires Ring(nodes, head, ring) && q in nodes && ring != [] && q.next == ring[0]
    ensures r in ring <==> exists d: nat :: d >= 1 && Visited(nodes, head, q, d) == r
  {
    if r in ring {
      VisitsExactly(nodes, head, ring, ring[0], r);
      var d: nat :| d >= 1 && Visited(nodes, head, ring[0], d) == r;
      OneTurnOn(nodes, head, q, ring[0], d);
      assert Visited(nodes, head, q, d + 1) == r;
    }
    if d: nat :| d >= 1 && Visited(nodes, head, q, d) == r {
      OneTurnOn(nodes, head, q, ring[0], d - 1);
      StaysOnRing(nodes, head, ring, ring[0], d - 1);
    }
  }

  lemma OneSwitch(list: seq<Process>, p: Process, head: Process?, k: nat, i: nat, d: nat)
    requires Chain(list + [p], head) && k < |list| && p.next == list[k] && k <= i + 1 && i <= |list| && d >= 1
    ensures Closed(list + [p], head) && Visited(list + [p], head, (list + [p])[i], d) in list[k..] + [p]
  {
    InsertedClosed(list, p, head);
    OnlyTheRestRuns(list, p, head, k, i, Visited(list + [p], head, (list + [p])[i], d));
  }

  /** A sequence of running processes, each come to from the one before, whatever could run in between. */
  ghost predicate Switched(nodes: seq<Process>, head: Process?, ran: seq<Process>)
    reads nodes
  {
    && Closed(nodes, head) && (forall q | q in ran :: q in nodes)
    && forall t | 0 <= t < |ran| - 1 :: exists d: nat :: d >= 1 && Visited(nodes, head, ran[t], d) == ran[t + 1]
  }

  /** So over any number of switches after a fork by a process that is not last, neither it nor any before it runs. */
  lemma {:induction false} NeverRunAgain(list: seq<Process>, p: Process, head: Process?, k: nat, i: nat, ran: seq<Process>, t: nat)
    requires Chain(list + [p], head) && k < |list| && p.next == list[k] && k <= i + 1 && i <= |list|
    requires Switched(list + [p], head, ran) && 1 <= t < |ran| && ran[0] == (list + [p])[i]
    ensures ran[t] in list[k..] + [p] && ran[t] !in list[..k]
  {
    var all, ring := list + [p], list[k..] + [p];
    var from := if t == 1 then i else IndexOf(all, ran[t - 1]);
    if t > 1 {
      NeverRunAgain(list, p, head, k, i, ran, t - 1);
      var j :| 0 <= j < |ring| && ring[j] == ran[t - 1];
      assert all[k + j] == ran[t - 1];
      IndexIs(all, k + j);
    }
    var d: nat :| d >= 1 && Visited(all, head, ran[t - 1], d) == ran[t - 1 + 1];
    OneSwitch(list, p, head, k, from, d);
    RestApart(list, p, k, ran[t]);
  }

  lemma RestApart(list: seq<Process>, p: Process, k: nat, q: Process)
    requires NoRepeats(list + [p]) && k < |list| && q in list[k..] + [p]
    ensures q !in list[..k]
  {
    var all, ring := list + [p], list[k..] + [p];
    var j :| 0 <= j < |ring| && ring[j] == q;
    assert all[k + j] == q;
    forall i | 0 <= i < k ensures list[i] != q {
      assert all[i] == list[i];
    }
  }

  /** What `fork_syscall` hands to `insert_process`: a process whose `next` is its parent's. */
  method InsertForked(s: Scheduler, parent: Process, child: Process)
    requires s.Valid() && parent in s.list && child !in s.list && child.next == parent.next
    modifies s`list, s.list
    ensures s.list == old(s.list) + [child] && Chain(s.list, s.processList) && s.processList == old(s.processList)
    ensures s.current == old(s.current) && child.next == old(parent.next)
    ensures s.Valid() <==> parent == old(s.list)[|old(s.list)| - 1]
  {
    LinkedNext(s.list, s.processList, IndexOf(s.list, parent));
    IndexIs(s.list, |s.list| - 1);
    s.InsertProcess(child);
  }

  method NewForked(s: Scheduler, parent: Process) returns (child: Process)
    requires s.Valid() && parent in s.list
    modifies s`list, s.list
    ensures fresh(child) && child.next == old(parent.next)
    ensures s.list == old(s.list) + [child] && Chain(s.list, s.processList)
    ensures s.Valid() <==> parent == old(s.list)[|old(s.list)| - 1]
  {
    child := new Process(0, 0, 0);
    child.next := parent.next;
    InsertForked(s, parent, child);
  }

  /** A process forks twice: its second child's `next` is the first, and the parent is never come to again. */
  method SecondForkExample() returns (s: Scheduler, parent: Process, first: Process, second: Process)
    ensures s.list == [parent, first, second] && Closed(s.list, s.processList)
    ensures forall d: nat :: Walked(s.list, s.processList, parent, d) != null
    ensures forall d: nat :: d >= 1 ==> Visited(s.list, s.processList, parent, d) != parent
  {
    parent := new Process(0, 0, 0);
    s := new Scheduler(parent);
    first := NewForked(s, parent);
    assert s.list[0].next == s.list[1];
    second := NewForked(s, parent);
    AfterSecondFork(s.list, parent, first, second, s.processList);
  }

  lemma AfterSecondFork(list: seq<Process>, parent: Process, first: Process, second: Process, head: Process?)
    requires list == [parent, first, second] && Chain(list, head) && second.next == first
    ensures Closed(list, head)
    ensures forall d: nat :: Walked(list, head, parent, d) != null
    ensures forall d: nat :: d >= 1 ==> Visited(list, head, parent, d) != parent
  {
    assert list == [parent, first] + [second] && first == [parent, first][1];
    InsertedEndsExactlyWhen([parent, first], second, head);
    OnlyTheRestRuns([parent, first], second, head, 1, 0, parent);
    assert list[0] != list[1] && list[0] != list[2];
  }
}
