/**
  The calls of `Lifetimes` taken apart where they let go of the page allocator: between
  two sections of one process any others may run sections of theirs.

  A process in the middle of a call may have pages that exit would not free; its phase
  says which.
 */
module Interleavings {

  import opened PageTables
  import opened Spaces
  import opened Lifetimes
  import opened Seal
  import Elf

  /**
    Where a process is: between calls; with pages still to allocate; forking, with the
    child's root taken or its pages mapped; in execve, with the old program cleared,
    the buffer mapped, or the new program mapped.
   */
  datatype Phase =
    | Between
    | Allocating(left: nat)
    | Rooted(child: nat)
    | Copying(child: nat)
    | Cleared(size: nat, programs: seq<Elf.Program>)
    | Reading(size: nat, programs: seq<Elf.Program>)
    | Loaded(size: nat)

  datatype Live = Live(proc: Proc, phase: Phase)

  datatype Machine = Machine(spaces: Spaces, live: map<nat, Live>)

  // -- sections -----------------------------------------------------------------

  /** What a process does while it holds the page allocator, with the steps after it that nobody else sees. */
  datatype Section =
    | StartAnon(cr3: nat, count: nat)
    | AnonPage(cr3: nat)
    | TakeRoot(cr3: nat, child: nat)
    | MapChild(cr3: nat)
    | InsertChild(cr3: nat)
    | ClearOld(cr3: nat, size: nat, programs: seq<Elf.Program>)
    | MapBuffer(cr3: nat)
    | LoadProgram(cr3: nat)
    | DropBuffer(cr3: nat)
    | ExitAll(cr3: nat)

  /** The process is in the phase the section belongs to. */
  predicate Ready(l: Live, c: Section) {
    match c
    case StartAnon(_, count) => l.phase.Between? && l.proc.anonEnd + count * 0x1000 <= 0x7fff_ff80_0000
    case AnonPage(_) => l.phase.Allocating? && l.phase.left > 0
    case TakeRoot(_, _) => l.phase.Between?
    case MapChild(_) => l.phase.Rooted?
    case InsertChild(_) => l.phase.Copying?
    case ClearOld(_, size, programs) => l.phase.Between? && PlacedPrograms(programs) && MissesBuffer(programs, size)
    case MapBuffer(_) => l.phase.Cleared?
    case LoadProgram(_) => l.phase.Reading?
    case DropBuffer(_) => l.phase.Loaded?
    case ExitAll(_) => l.phase.Between?
  }

  /** What the section does to the address spaces. */
  ghost predicate Effect(a: Spaces, l: Live, c: Section, b: Spaces)
    requires Ready(l, c)
  {
    var p := l.proc;
    match c
    case StartAnon(_, _) => b == a
    case AnonPage(_) => Grows(a, b, RegionNodes(p.cr3, p.anonEnd, 1), 7)
    case TakeRoot(_, child) => CanRoot(a, p.cr3, child) && b == WithRoot(a, p.cr3, child)
    case MapChild(_) => Grows(a, b, ForkNodes(p, l.phase.child), 7)
    case InsertChild(_) => b == a
    case ClearOld(_, _, _) => Shrinks(a, b, ExecPages(p))
    case MapBuffer(_) => Grows(a, b, BufferNodes(p.cr3, l.phase.size), 3)
    case LoadProgram(_) => Grows(a, b, Elf.AllNodes(p.cr3, l.phase.programs), 7)
    case DropBuffer(_) => Shrinks(a, b, BufferPages(p.cr3, l.phase.size))
    case ExitAll(_) => ExitDone(a, b, p)
  }

  function AllocatingLeft(left: nat): Phase {
    if left == 0 then Between else Allocating(left)
  }

  /** Where the process is afterwards. */
  function After(l: Live, c: Section): Live
    requires Ready(l, c)
  {
    var p := l.proc;
    match c
    case StartAnon(_, count) => Live(p, AllocatingLeft(count))
    case AnonPage(_) => Live(p.(anonEnd := p.anonEnd + 0x1000), AllocatingLeft(l.phase.left - 1))
    case TakeRoot(_, child) => Live(p, Rooted(child))
    case MapChild(_) => Live(p, Copying(l.phase.child))
    case InsertChild(_) => Live(p, Between)
    case ClearOld(_, size, programs) => Live(p.(anonEnd := 0x80_0000), Cleared(size, programs))
    case MapBuffer(_) => Live(p, Reading(l.phase.size, l.phase.programs))
    case LoadProgram(_) => Live(p.(elfEnd := Elf.Highest(l.phase.programs)), Loaded(l.phase.size))
    case DropBuffer(_) => Live(p, Between)
    case ExitAll(_) => l
  }

  /** The other processes stay; a forked one comes, an exiting one goes. */
  function LiveAfter(live: map<nat, Live>, c: Section): map<nat, Live>
    requires c.cr3 in live && Ready(live[c.cr3], c)
  {
    var l := live[c.cr3];
    if c.ExitAll? then live - {c.cr3}
    else if c.InsertChild? then
      live[c.cr3 := After(l, c)][l.phase.child := Live(l.proc.(cr3 := l.phase.child), Between)]
    else live[c.cr3 := After(l, c)]
  }

  /** One section of one process, whatever phases the others are in. */
  ghost predicate Step(m: Machine, c: Section, t: Machine) {
    && c.cr3 in m.live && Ready(m.live[c.cr3], c)
    && Effect(m.spaces, m.live[c.cr3], c, t.spaces) && t.live == LiveAfter(m.live, c)
  }

  // -- the invariant --------------------------------------------------------------

  predicate HasBuffer(p: Phase) {
    p.Reading? || p.Loaded?
  }

  predicate Forks(p: Phase) {
    p.Rooted? || p.Copying?
  }

  /** The pages of a child that is not there yet. */
  ghost predicate InFork(p: Proc, n: Node) {
    InRange(n, n.root, 0x200, PageEnd(p.elfEnd)) || InRange(n, n.root, 0x800, PageEnd(p.anonEnd))
  }

  /** What exit would free, without the program from its clearing to the loading of the next. */
  ghost predicate InSpace(l: Live, n: Node) {
    if l.phase.Cleared? || l.phase.Reading? then InRange(n, l.proc.cr3, 0x200, 0x400) else InExit(l.proc, n)
  }

  /** Pages process `c` answers for: those of its space, its buffer, and those of a child it is making. */
  ghost predicate Answers(c: nat, l: Live, n: Node) {
    || (n.root == c && InSpace(l, n))
    || (n.root == c && HasBuffer(l.phase) && InRange(n, c, 0x800, PageEnd(0x80_0000 + l.phase.size)))
    || (l.phase.Copying? && n.root == l.phase.child && InFork(l.proc, n))
  }

  ghost predicate Answered(live: map<nat, Live>, n: Node) {
    exists c | c in live :: Answers(c, live[c], n)
  }

  ghost predicate GoodLive(a: Spaces, live: map<nat, Live>, c: nat)
    requires c in live
  {
    var p, phase := live[c].proc, live[c].phase;
    && p.cr3 == c && c in a.upper && GoodProc(p)
    && (phase.Allocating? ==> phase.left > 0 && p.anonEnd + phase.left * 0x1000 <= 0x7fff_ff80_0000)
    && (Forks(phase) ==> phase.child in a.upper && phase.child !in live)
    && (phase.Cleared? || phase.Reading? ==> PlacedPrograms(phase.programs))
  }

  ghost predicate ChildrenApart(live: map<nat, Live>) {
    forall c, d | c in live && d in live && Forks(live[c].phase) && Forks(live[d].phase)
      && live[c].phase.child == live[d].phase.child :: c == d
  }

  ghost predicate AllAnswered(a: Spaces, live: map<nat, Live>) {
    forall n | n in a.nodes && |n.path| == 4 :: Answered(live, n)
  }

  ghost predicate Inv(m: Machine) {
    && SpacesInv(m.spaces) && (forall c | c in m.live :: GoodLive(m.spaces, m.live, c))
    && ChildrenApart(m.live) && AllAnswered(m.spaces, m.live)
  }

  /** Between calls this is the invariant of whole calls, and the other way round. */
  lemma BetweenCalls(m: Machine)
    requires forall c | c in m.live :: m.live[c].phase.Between?
    ensures Inv(m) <==> SystemInv(System(m.spaces, map c | c in m.live :: m.live[c].proc))
  {
    var s := System(m.spaces, map c | c in m.live :: m.live[c].proc);
    forall n ensures Answered(m.live, n) <==> n.root in s.procs && InExit(s.procs[n.root], n) {
      if n.root in s.procs && InExit(s.procs[n.root], n) {
        assert Answers(n.root, m.live[n.root], n);
      }
    }
    if SystemInv(s) {
      forall c | c in m.live ensures GoodLive(m.spaces, m.live, c) {
        assert s.procs[c] == m.live[c].proc;
      }
    }
    if Inv(m) {
      forall c | c in s.procs ensures s.procs[c].cr3 == c && c in s.spaces.upper && GoodProc(s.procs[c]) {
        assert GoodLive(m.spaces, m.live, c);
      }
    }
  }

  // -- every section keeps it -------------------------------------------------------

  /** What one process's section needs to do: answer for what it answered for, and for what is new. */
  ghost predicate Covers(a: Spaces, l: Live, b: Spaces, c: nat, l': Live) {
    forall n | n in b.nodes && |n.path| == 4 && (n in a.nodes ==> Answers(c, l, n)) :: Answers(c, l', n)
  }

  lemma OneMoves(a: Spaces, live: map<nat, Live>, b: Spaces, c: nat, l': Live)
    requires AllAnswered(a, live) && c in live && Covers(a, live[c], b, c, l')
    ensures AllAnswered(b, live[c := l'])
  {
    forall n | n in b.nodes && |n.path| == 4 ensures Answered(live[c := l'], n) {
      if n in a.nodes {
        assert Answered(live, n);
        var d :| d in live && Answers(d, live[d], n);
        assert d != c ==> Answers(d, live[c := l'][d], n);
      }
      assert Answers(c, l', n) ==> Answers(c, live[c := l'][c], n);
    }
  }

  lemma AnonCovers(a: Spaces, l: Live, b: Spaces, c: Section)
    requires c.StartAnon? || c.AnonPage?
    requires Ready(l, c) && Effect(a, l, c, b) && l.proc.cr3 == c.cr3 && GoodProc(l.proc)
    ensures Covers(a, l, b, c.cr3, After(l, c))
  {
    var p, q := l.proc, After(l, c).proc;
    forall n | n in b.nodes && |n.path| == 4 && (n in a.nodes ==> Answers(c.cr3, l, n)) ensures Answers(c.cr3, After(l, c), n) {
      if n !in a.nodes {
        AnonPages(p, 1, n);
        PagesAreNodes(p.cr3, p.anonEnd, 1);
      } else if c.AnonPage? && InRange(n, c.cr3, 0x800, PageEnd(p.anonEnd)) {
        Widen(n, c.cr3, 0x800, PageEnd(p.anonEnd), 0x800, PageEnd(q.anonEnd));
      }
    }
  }

  lemma ForkCovers(a: Spaces, l: Live, b: Spaces, c: Section)
    requires c.TakeRoot? || c.MapChild?
    requires Ready(l, c) && Effect(a, l, c, b) && l.proc.cr3 == c.cr3
    ensures Covers(a, l, b, c.cr3, After(l, c))
  {
    forall n | n in b.nodes && |n.path| == 4 && (n in a.nodes ==> Answers(c.cr3, l, n)) ensures Answers(c.cr3, After(l, c), n) {
      if n !in a.nodes {
        ForkPages(l.proc, l.phase.child, n);
      }
    }
  }

  lemma ExecCovers(a: Spaces, l: Live, b: Spaces, c: Section)
    requires c.ClearOld? || c.MapBuffer? || c.DropBuffer?
    requires Ready(l, c) && Effect(a, l, c, b) && l.proc.cr3 == c.cr3
    ensures Covers(a, l, b, c.cr3, After(l, c))
  {
    forall n | n in b.nodes && |n.path| == 4 && (n in a.nodes ==> Answers(c.cr3, l, n)) ensures Answers(c.cr3, After(l, c), n) {
      if c.ClearOld? {
        ExitIs(l.proc, n);
      } else {
        BufferIs(c.cr3, l.phase.size, n);
      }
    }
  }

  lemma BufferIs(cr3: nat, size: nat, n: Node)
    ensures n in BufferPages(cr3, size) <==> InRange(n, cr3, 0x800, PageEnd(0x80_0000 + size))
    ensures n in BufferNodes(cr3, size) ==> n.root == cr3 && (|n.path| == 4 <==> n in BufferPages(cr3, size))
  {
    assert RoundDown(0x80_0000) == 0x80_0000;
    LoopRange(cr3, 0x80_0000, 0x80_0000 + size, n);
    PagesAreNodes(cr3, 0x80_0000, Turns(0x80_0000, 0x80_0000 + size));
  }

  /** Loading moves the end of the program; the old program's pages are gone by then. */
  lemma LoadCovers(a: Spaces, l: Live, b: Spaces, c: Section)
    requires c.LoadProgram? && Ready(l, c) && Effect(a, l, c, b) && l.proc.cr3 == c.cr3 && PlacedPrograms(l.phase.programs)
    ensures Covers(a, l, b, c.cr3, After(l, c))
  {
    forall n | n in b.nodes && |n.path| == 4 && (n in a.nodes ==> Answers(c.cr3, l, n)) ensures Answers(c.cr3, After(l, c), n) {
      if n !in a.nodes {
        ProgramPages(c.cr3, l.phase.programs, n);
        LowRange(n, c.cr3, 0x200, Elf.Highest(l.phase.programs));
      }
    }
  }

  lemma ExitAnswers(a: Spaces, live: map<nat, Live>, b: Spaces, cr3: nat)
    requires AllAnswered(a, live) && cr3 in live && live[cr3].phase.Between? && ExitDone(a, b, live[cr3].proc)
    requires live[cr3].proc.cr3 == cr3
    ensures AllAnswered(b, live - {cr3})
  {
    forall n | n in b.nodes && |n.path| == 4 ensures Answered(live - {cr3}, n) {
      assert Answered(live, n);
      var d :| d in live && Answers(d, live[d], n);
      ExitIs(live[cr3].proc, n);
      assert d != cr3 && Answers(d, (live - {cr3})[d], n);
    }
  }

  /** The child takes over what its parent answered for. */
  lemma ChildAnswers(a: Spaces, live: map<nat, Live>, c: Section)
    requires c.InsertChild? && c.cr3 in live && Ready(live[c.cr3], c) && AllAnswered(a, live)
    requires live[c.cr3].phase.child !in live && live[c.cr3].proc.cr3 == c.cr3
    ensures AllAnswered(a, LiveAfter(live, c))
  {
    var l, t := live[c.cr3], LiveAfter(live, c);
    forall n | n in a.nodes && |n.path| == 4 ensures Answered(t, n) {
      assert Answered(live, n);
      var d :| d in live && Answers(d, live[d], n);
      if d != c.cr3 {
        assert Answers(d, t[d], n);
      } else if n.root == c.cr3 {
        assert Answers(c.cr3, t[c.cr3], n);
      }
      if d == c.cr3 && n.root == l.phase.child {
        if InRange(n, n.root, 0x200, PageEnd(l.proc.elfEnd)) {
          LowRange(n, n.root, 0x200, l.proc.elfEnd);
        }
        assert Answers(l.phase.child, t[l.phase.child], n);
      }
    }
  }

  lemma MovesCover(m: Machine, c: Section, t: Machine)
    requires Inv(m) && Step(m, c, t) && !c.ExitAll? && !c.InsertChild?
    ensures Covers(m.spaces, m.live[c.cr3], t.spaces, c.cr3, After(m.live[c.cr3], c))
  {
    assert GoodLive(m.spaces, m.live, c.cr3);
    match c
    case StartAnon(_, _) => AnonCovers(m.spaces, m.live[c.cr3], t.spaces, c);
    case AnonPage(_) => AnonCovers(m.spaces, m.live[c.cr3], t.spaces, c);
    case TakeRoot(_, _) => ForkCovers(m.spaces, m.live[c.cr3], t.spaces, c);
    case MapChild(_) => ForkCovers(m.spaces, m.live[c.cr3], t.spaces, c);
    case ClearOld(_, _, _) => ExecCovers(m.spaces, m.live[c.cr3], t.spaces, c);
    case MapBuffer(_) => ExecCovers(m.spaces, m.live[c.cr3], t.spaces, c);
    case LoadProgram(_) => LoadCovers(m.spaces, m.live[c.cr3], t.spaces, c);
    case DropBuffer(_) => ExecCovers(m.spaces, m.live[c.cr3], t.spaces, c);
  }

  lemma AnsweredKept(m: Machine, c: Section, t: Machine)
    requires Inv(m) && Step(m, c, t)
    ensures AllAnswered(t.spaces, t.live)
  {
    assert GoodLive(m.spaces, m.live, c.cr3);
    if c.ExitAll? {
      ExitAnswers(m.spaces, m.live, t.spaces, c.cr3);
    } else if c.InsertChild? {
      ChildAnswers(m.spaces, m.live, c);
    } else {
      MovesCover(m, c, t);
      OneMoves(m.spaces, m.live, t.spaces, c.cr3, After(m.live[c.cr3], c));
    }
  }

  /** The memory side: nothing but a new root is added to the roots, and frames stay owned. */
  lemma SpacesKept(m: Machine, c: Section, t: Machine)
    requires Inv(m) && Step(m, c, t)
    ensures SpacesInv(t.spaces)
    ensures t.spaces.upper.Keys == m.spaces.upper.Keys + (if c.TakeRoot? then {c.child} else {})
    ensures t.spaces.reserved == m.spaces.reserved + (if c.TakeRoot? then {c.child} else {})
    ensures c.TakeRoot? ==> c.child !in m.spaces.upper && c.child !in m.spaces.reserved
  {
    if c.TakeRoot? {
      RootKeeps(m.spaces, m.live[c.cr3].proc.cr3, c.child);
    }
  }

  lemma OwnLiveKept(a: Spaces, live: map<nat, Live>, c: Section, b: Spaces)
    requires c.cr3 in live && Ready(live[c.cr3], c) && GoodLive(a, live, c.cr3) && a.upper.Keys <= b.upper.Keys
    requires c.TakeRoot? ==> c.child in b.upper && c.child !in live
    ensures c.cr3 in LiveAfter(live, c) ==> GoodLive(b, LiveAfter(live, c), c.cr3)
    ensures c.InsertChild? ==> GoodLive(b, LiveAfter(live, c), live[c.cr3].phase.child)
  {
    if c.LoadProgram? {
      HighestBelow(live[c.cr3].phase.programs);
    }
  }

  lemma OtherLiveKept(a: Spaces, live: map<nat, Live>, c: Section, b: Spaces, d: nat)
    requires c.cr3 in live && Ready(live[c.cr3], c) && d in live && d != c.cr3 && GoodLive(a, live, d)
    requires a.upper.Keys <= b.upper.Keys && ChildrenApart(live)
    requires c.InsertChild? ==> live[c.cr3].phase.child !in live
    ensures d in LiveAfter(live, c) && GoodLive(b, LiveAfter(live, c), d)
  {
    assert LiveAfter(live, c)[d] == live[d];
  }

  lemma ApartKept(a: Spaces, live: map<nat, Live>, c: Section)
    requires c.cr3 in live && Ready(live[c.cr3], c) && ChildrenApart(live) && (forall d | d in live :: GoodLive(a, live, d))
    requires c.TakeRoot? ==> c.child !in a.upper
    ensures ChildrenApart(LiveAfter(live, c))
  {
    var t := LiveAfter(live, c);
    forall d, e | d in t && e in t && Forks(t[d].phase) && Forks(t[e].phase) && t[d].phase.child == t[e].phase.child
      ensures d == e
    {
      assert GoodLive(a, live, d) && GoodLive(a, live, e);
    }
  }

  lemma LiveKept(m: Machine, c: Section, t: Machine)
    requires Inv(m) && Step(m, c, t)
    ensures forall d | d in t.live :: GoodLive(t.spaces, t.live, d)
    ensures ChildrenApart(t.live)
  {
    SpacesKept(m, c, t);
    assert GoodLive(m.spaces, m.live, c.cr3);
    forall d | d in t.live ensures GoodLive(t.spaces, t.live, d) {
      if d in m.live && d != c.cr3 {
        OtherLiveKept(m.spaces, m.live, c, t.spaces, d);
      } else {
        NewRootApart(m, c, t);
        OwnLiveKept(m.spaces, m.live, c, t.spaces);
      }
    }
    ApartKept(m.spaces, m.live, c);
  }

  lemma NewRootApart(m: Machine, c: Section, t: Machine)
    requires Inv(m) && Step(m, c, t)
    ensures c.TakeRoot? ==> c.child !in m.live
  {
    SpacesKept(m, c, t);
    assert c.TakeRoot? && c.child in m.live ==> GoodLive(m.spaces, m.live, c.child);
  }

  /** Every section of every process keeps the invariant, whatever the others are in the middle of. */
  lemma StepKeeps(m: Machine, c: Section, t: Machine)
    requires Inv(m) && Step(m, c, t)
    ensures Inv(t)
  {
    SpacesKept(m, c, t);
    AnsweredKept(m, c, t);
    LiveKept(m, c, t);
  }

  // -- what holds over interleaved runs ----------------------------------------------

  /** Each state follows from the one before by its section; see `RunStep`. */
  ghost predicate Run(states: seq<Machine>, sections: seq<Section>) {
    && |states| == |sections| + 1
    && forall i | 0 <= i < |sections| :: Sealed(i) ==> Step(states[i], sections[i], states[i + 1])
  }

  lemma RunStep(states: seq<Machine>, sections: seq<Section>, i: nat)
    requires Run(states, sections) && i < |sections|
    ensures Step(states[i], sections[i], states[i + 1])
  {
    AlwaysSealed(i);
  }

  lemma {:induction false} RunKeeps(states: seq<Machine>, sections: seq<Section>, n: nat)
    requires Run(states, sections) && Inv(states[0]) && n <= |sections|
    ensures Inv(states[n])
  {
    if n > 0 {
      RunKeeps(states, sections, n - 1);
      RunStep(states, sections, n - 1);
      StepKeeps(states[n - 1], sections[n - 1], states[n]);
    }
  }

  /** No section touches what another live process has mapped, nor a child another is making. */
  lemma SparesOthers(m: Machine, c: Section, t: Machine, n: Node)
    requires Inv(m) && Step(m, c, t) && n.root != c.cr3
    requires Forks(m.live[c.cr3].phase) ==> n.root != m.live[c.cr3].phase.child
    ensures n in t.spaces.nodes <==> n in m.spaces.nodes
    ensures n in m.spaces.nodes ==> t.spaces.nodes[n] == m.spaces.nodes[n]
  {
    var l := m.live[c.cr3];
    assert GoodLive(m.spaces, m.live, c.cr3);
    match c
    case StartAnon(_, _) =>
    case AnonPage(_) => PagesAreNodes(l.proc.cr3, l.proc.anonEnd, 1);
    case TakeRoot(_, _) =>
    case MapChild(_) => ForkPages(l.proc, l.phase.child, n);
    case InsertChild(_) =>
    case ClearOld(_, _, _) => ExitElsewhere(l.proc, n);
    case MapBuffer(_) => BufferIs(c.cr3, l.phase.size, n);
    case LoadProgram(_) => LoadElsewhere(c.cr3, l.phase.programs, n);
    case DropBuffer(_) =>
      BufferIs(c.cr3, l.phase.size, n);
      PagesAreNodes(c.cr3, 0x80_0000, Turns(0x80_0000, 0x80_0000 + l.phase.size));
    case ExitAll(_) => ExitElsewhere(l.proc, n);
  }

  lemma LoadElsewhere(cr3: nat, programs: seq<Elf.Program>, n: Node)
    requires PlacedPrograms(programs) && n.root != cr3
    ensures n !in Elf.AllNodes(cr3, programs)
  {
    if n in Elf.AllNodes(cr3, programs) {
      ProgramPages(cr3, programs, n);
    }
  }

  /**
    So from one of its sections to the next a process finds its space as it left it,
    whatever the others did in between: every call does what it does undisturbed.
   */
  lemma {:induction false} Undisturbed(states: seq<Machine>, sections: seq<Section>, cr3: nat, i: nat, j: nat, n: Node)
    requires Run(states, sections) && Inv(states[0]) && i <= j <= |sections| && n.root == cr3
    requires cr3 in states[i].live && forall k | i <= k < j :: sections[k].cr3 != cr3
    ensures cr3 in states[j].live && states[j].live[cr3] == states[i].live[cr3]
    ensures n in states[j].spaces.nodes <==> n in states[i].spaces.nodes
    ensures n in states[i].spaces.nodes ==> states[j].spaces.nodes[n] == states[i].spaces.nodes[n]
    decreases j
  {
    if i < j {
      Undisturbed(states, sections, cr3, i, j - 1, n);
      RunKeeps(states, sections, j - 1);
      var m, c := states[j - 1], sections[j - 1];
      RunStep(states, sections, j - 1);
      assert GoodLive(m.spaces, m.live, c.cr3);
      SparesOthers(m, c, states[j], n);
    }
  }

  /** Nothing of `cr3` happens from section `i` up to `j`. */
  ghost predicate Waits(sections: seq<Section>, cr3: nat, i: nat, j: nat) {
    i <= j <= |sections| && forall k | i <= k < j :: sections[k].cr3 != cr3
  }

  ghost predicate SameNode(a: Spaces, b: Spaces, n: Node) {
    (n in b.nodes <==> n in a.nodes) && (n in a.nodes ==> b.nodes[n] == a.nodes[n])
  }

  /** What the four sections of execve do, kept out of proofs that only pass it on. */
  ghost predicate FourChanges(a: Spaces, a': Spaces, b: Spaces, b': Spaces, c: Spaces, c': Spaces, d: Spaces, d': Spaces,
                              cleared: set<Node>, buffer: set<Node>, programs: set<Node>, gone: set<Node>, seal: nat)
  {
    Sealed(seal) ==>
      && Shrinks(a, a', cleared) && Grows(b, b', buffer, 3) && Grows(c, c', programs, 7) && Shrinks(d, d', gone)
  }

  /** One node over the four changes, with others in between that leave it alone. */
  lemma NodeThroughSections(a: Spaces, a': Spaces, b: Spaces, b': Spaces, c: Spaces, c': Spaces, d: Spaces, d': Spaces,
                            cleared: set<Node>, buffer: set<Node>, programs: set<Node>, gone: set<Node>, seal: nat, n: Node)
    requires FourChanges(a, a', b, b', c, c', d, d', cleared, buffer, programs, gone, seal)
    requires SameNode(a', b, n) && SameNode(b', c, n) && SameNode(c', d, n)
    ensures n in d'.nodes <==> n !in gone && ((n in a.nodes && n !in cleared) || n in buffer || n in programs)
    ensures n in d'.nodes ==>
      if n in a.nodes && n !in cleared then d'.nodes[n] == a.nodes[n] else d'.nodes[n] % 0x1000 == if n in buffer then 3 else 7
  {
    AlwaysSealed(seal);
  }

  lemma ExecStages(states: seq<Machine>, sections: seq<Section>, cr3: nat, size: nat, programs: seq<Elf.Program>,
                   i: nat, j: nat, k: nat, l: nat)
    requires Run(states, sections) && Inv(states[0]) && i < j < k < l < |sections|
    requires sections[i] == ClearOld(cr3, size, programs) && Waits(sections, cr3, i + 1, j)
    requires sections[j] == MapBuffer(cr3) && Waits(sections, cr3, j + 1, k)
    requires sections[k] == LoadProgram(cr3) && Waits(sections, cr3, k + 1, l) && sections[l] == DropBuffer(cr3)
    ensures cr3 in states[i + 1].live && cr3 in states[j + 1].live && cr3 in states[k + 1].live
    ensures cr3 in states[i].live && cr3 in states[l + 1].live
    ensures states[l + 1].live[cr3] == Live(Proc(cr3, Elf.Highest(programs), 0x80_0000), Between)
    ensures FourChanges(states[i].spaces, states[i + 1].spaces, states[j].spaces, states[j + 1].spaces, states[k].spaces,
                        states[k + 1].spaces, states[l].spaces, states[l + 1].spaces, ExecPages(states[i].live[cr3].proc),
                        BufferNodes(cr3, size), Elf.AllNodes(cr3, programs), BufferPages(cr3, size), cr3)
  {
    var none := Node(cr3, []);
    RunKeeps(states, sections, i);
    RunStep(states, sections, i);
    assert GoodLive(states[i].spaces, states[i].live, cr3);
    Undisturbed(states, sections, cr3, i + 1, j, none);
    RunStep(states, sections, j);
    Undisturbed(states, sections, cr3, j + 1, k, none);
    RunStep(states, sections, k);
    Undisturbed(states, sections, cr3, k + 1, l, none);
    RunStep(states, sections, l);
  }

  /**
    An execve in four sections, with any sections of others in between, leaves in its
    space and its struct exactly what it leaves as one call; see `Lifetimes.ExecDone`.
   */
  lemma ExecAsOneCall(states: seq<Machine>, sections: seq<Section>, cr3: nat, size: nat, programs: seq<Elf.Program>,
                      i: nat, j: nat, k: nat, l: nat, n: Node)
    requires Run(states, sections) && Inv(states[0]) && i < j < k < l < |sections| && n.root == cr3
    requires sections[i] == ClearOld(cr3, size, programs) && Waits(sections, cr3, i + 1, j)
    requires sections[j] == MapBuffer(cr3) && Waits(sections, cr3, j + 1, k)
    requires sections[k] == LoadProgram(cr3) && Waits(sections, cr3, k + 1, l) && sections[l] == DropBuffer(cr3)
    ensures cr3 in states[i].live && cr3 in states[l + 1].live
    ensures states[l + 1].live[cr3] == Live(Proc(cr3, Elf.Highest(programs), 0x80_0000), Between)
    ensures n in states[l + 1].spaces.nodes <==>
      && n !in BufferPages(cr3, size)
      && (|| (n in states[i].spaces.nodes && n !in ExecPages(states[i].live[cr3].proc))
          || n in BufferNodes(cr3, size) || n in Elf.AllNodes(cr3, programs))
    ensures n in states[l + 1].spaces.nodes ==>
      var entry := states[l + 1].spaces.nodes[n];
      if n in states[i].spaces.nodes && n !in ExecPages(states[i].live[cr3].proc) then entry == states[i].spaces.nodes[n]
      else entry % 0x1000 == if n in BufferNodes(cr3, size) then 3 else 7
  {
    ExecStages(states, sections, cr3, size, programs, i, j, k, l);
    Undisturbed(states, sections, cr3, i + 1, j, n);
    Undisturbed(states, sections, cr3, j + 1, k, n);
    Undisturbed(states, sections, cr3, k + 1, l, n);
    NodeThroughSections(states[i].spaces, states[i + 1].spaces, states[j].spaces, states[j + 1].spaces, states[k].spaces,
                        states[k + 1].spaces, states[l].spaces, states[l + 1].spaces, ExecPages(states[i].live[cr3].proc),
                        BufferNodes(cr3, size), Elf.AllNodes(cr3, programs), BufferPages(cr3, size), cr3, n);
  }

  /** How many of the sections from `i` up to `j` are of `cr3`. */
  function OwnSections(sections: seq<Section>, cr3: nat, i: nat, j: nat): (d: nat)
    requires i <= j <= |sections|
  {
    if i == j then 0 else OwnSections(sections, cr3, i, j - 1) + (if sections[j - 1].cr3 == cr3 then 1 else 0)
  }

  /** The process is in the middle of a call in all states behind `i` and before `j`. */
  ghost predicate InCall(states: seq<Machine>, cr3: nat, i: nat, j: nat) {
    j <= |states| && forall k | i < k < j :: cr3 in states[k].live && !states[k].live[cr3].phase.Between?
  }

  /** The node `n` is there afterwards if it was or is among `more`, and new ones have all flags. */
  ghost predicate Gains(a: Spaces, b: Spaces, more: set<Node>, n: Node) {
    && (n in b.nodes <==> n in a.nodes || n in more)
    && (n in a.nodes ==> b.nodes[n] == a.nodes[n])
    && (n in b.nodes && n !in a.nodes ==> b.nodes[n] % 0x1000 == 7)
  }

  /** `d` pages of an anonymous allocation, whose nodes are `some`, are there. */
  ghost predicate AnonSoFar(m: Machine, t: Machine, cr3: nat, count: nat, d: nat, some: set<Node>, n: Node) {
    && cr3 in m.live && cr3 in t.live && d <= count
    && var p := m.live[cr3].proc;
      && t.live[cr3] == Live(p.(anonEnd := p.anonEnd + d * 0x1000), AllocatingLeft(count - d))
      && Gains(m.spaces, t.spaces, some, n)
  }

  lemma GainsMore(a: Spaces, b: Spaces, c: Spaces, some: set<Node>, more: set<Node>, n: Node)
    requires Gains(a, b, some, n) && Grows(b, c, more, 7)
    ensures Gains(a, c, some + more, n)
  {}

  /** The section maps one page more, with the nodes `more`, and moves the end along. */
  ghost predicate OneMore(t: Machine, u: Machine, cr3: nat, more: set<Node>) {
    && cr3 in t.live && cr3 in u.live && t.live[cr3].phase.Allocating? && t.live[cr3].phase.left > 0
    && var l := t.live[cr3];
      && u.live[cr3] == Live(l.proc.(anonEnd := l.proc.anonEnd + 0x1000), AllocatingLeft(l.phase.left - 1))
      && Grows(t.spaces, u.spaces, more, 7)
  }

  lemma AnonMore(m: Machine, t: Machine, u: Machine, cr3: nat, count: nat, d: nat, some: set<Node>, more: set<Node>, n: Node)
    requires AnonSoFar(m, t, cr3, count, d, some, n) && OneMore(t, u, cr3, more)
    ensures AnonSoFar(m, u, cr3, count, d + 1, some + more, n)
  {
    GainsMore(m.spaces, t.spaces, u.spaces, some, more, n);
  }

  lemma OnePage(cr3: nat, va: nat, d: nat)
    ensures RegionNodes(cr3, va, d + 1) == RegionNodes(cr3, va, d) + RegionNodes(cr3, va + d * 0x1000, 1)
  {
    assert RegionNodes(cr3, va + d * 0x1000, 0) == {};
  }

  lemma AnonStarts(m: Machine, t: Machine, cr3: nat, count: nat, n: Node)
    requires Step(m, StartAnon(cr3, count), t)
    ensures AnonSoFar(m, t, cr3, count, 0, {}, n)
  {}

  /** In the phase of allocating no other section is possible. */
  lemma OwnPage(states: seq<Machine>, sections: seq<Section>, j: nat)
    requires Run(states, sections) && Inv(states[0]) && j < |sections|
    requires sections[j].cr3 in states[j].live && states[j].live[sections[j].cr3].phase.Allocating?
    ensures var cr3 := sections[j].cr3;
      OneMore(states[j], states[j + 1], cr3, RegionNodes(cr3, states[j].live[cr3].proc.anonEnd, 1))
  {
    RunKeeps(states, sections, j);
    RunStep(states, sections, j);
    assert GoodLive(states[j].spaces, states[j].live, sections[j].cr3);
  }

  lemma OthersTurn(states: seq<Machine>, sections: seq<Section>, cr3: nat, count: nat, i: nat, j: nat, d: nat,
                   some: set<Node>, n: Node)
    requires Run(states, sections) && Inv(states[0]) && i <= j < |sections| && n.root == cr3 && sections[j].cr3 != cr3
    requires AnonSoFar(states[i], states[j], cr3, count, d, some, n)
    ensures AnonSoFar(states[i], states[j + 1], cr3, count, d, some, n)
  {
    RunKeeps(states, sections, j);
    RunStep(states, sections, j);
    assert GoodLive(states[j].spaces, states[j].live, sections[j].cr3);
    SparesOthers(states[j], sections[j], states[j + 1], n);
  }

  lemma OwnTurn(states: seq<Machine>, sections: seq<Section>, cr3: nat, count: nat, i: nat, j: nat, d: nat,
                va: nat, some: set<Node>, all: set<Node>, n: Node)
    requires Run(states, sections) && Inv(states[0]) && i <= j < |sections| && n.root == cr3 && sections[j].cr3 == cr3
    requires AnonSoFar(states[i], states[j], cr3, count, d, some, n)
    requires states[j].live[cr3].phase.Allocating? && va == states[j].live[cr3].proc.anonEnd
    requires all == some + RegionNodes(cr3, va, 1)
    ensures AnonSoFar(states[i], states[j + 1], cr3, count, d + 1, all, n)
  {
    OwnPage(states, sections, j);
    AnonMore(states[i], states[j], states[j + 1], cr3, count, d, some, RegionNodes(cr3, va, 1), n);
  }

  lemma NextTurn(states: seq<Machine>, sections: seq<Section>, cr3: nat, count: nat, i: nat, j: nat, d: nat, va: nat, n: Node)
    requires Run(states, sections) && Inv(states[0]) && i <= j < |sections| && n.root == cr3
    requires AnonSoFar(states[i], states[j], cr3, count, d, RegionNodes(cr3, va, d), n)
    requires states[j].live[cr3].phase.Allocating? && va == states[i].live[cr3].proc.anonEnd
    ensures var e := d + (if sections[j].cr3 == cr3 then 1 else 0);
      AnonSoFar(states[i], states[j + 1], cr3, count, e, RegionNodes(cr3, va, e), n)
  {
    if sections[j].cr3 == cr3 {
      OnePage(cr3, va, d);
      OwnTurn(states, sections, cr3, count, i, j, d, va + d * 0x1000, RegionNodes(cr3, va, d), RegionNodes(cr3, va, d + 1), n);
    } else {
      OthersTurn(states, sections, cr3, count, i, j, d, RegionNodes(cr3, va, d), n);
    }
  }

  lemma {:induction false} AnonGoesOn(states: seq<Machine>, sections: seq<Section>, cr3: nat, count: nat, i: nat, j: nat,
                                      va: nat, n: Node)
    requires Run(states, sections) && Inv(states[0]) && i < j <= |sections| && n.root == cr3
    requires sections[i] == StartAnon(cr3, count) && InCall(states, cr3, i, j)
    requires cr3 in states[i].live && va == states[i].live[cr3].proc.anonEnd
    ensures var d := OwnSections(sections, cr3, i + 1, j);
      AnonSoFar(states[i], states[j], cr3, count, d, RegionNodes(cr3, va, d), n)
    decreases j
  {
    if i + 1 == j {
      RunStep(states, sections, i);
      AnonStarts(states[i], states[i + 1], cr3, count, n);
    } else {
      var d := OwnSections(sections, cr3, i + 1, j - 1);
      AnonGoesOn(states, sections, cr3, count, i, j - 1, va, n);
      NextTurn(states, sections, cr3, count, i, j - 1, d, va, n);
    }
  }

  /**
    Anonymous allocation page by page, with any sections of others in between, gives
    what it gives as one call; see `Lifetimes.AnonDone`.
   */
  lemma AnonAsOneCall(states: seq<Machine>, sections: seq<Section>, cr3: nat, count: nat, i: nat, j: nat, n: Node)
    requires Run(states, sections) && Inv(states[0]) && i < j <= |sections| && n.root == cr3
    requires sections[i] == StartAnon(cr3, count) && InCall(states, cr3, i, j)
    requires cr3 in states[j].live && states[j].live[cr3].phase.Between?
    ensures OwnSections(sections, cr3, i + 1, j) == count && cr3 in states[i].live
    ensures var p := states[i].live[cr3].proc;
      && states[j].live[cr3] == Live(p.(anonEnd := p.anonEnd + count * 0x1000), Between)
      && Gains(states[i].spaces, states[j].spaces, RegionNodes(cr3, p.anonEnd, count), n)
  {
    RunStep(states, sections, i);
    AnonGoesOn(states, sections, cr3, count, i, j, states[i].live[cr3].proc.anonEnd, n);
  }

  /** While its parent waits, the space of a child that is being made stays as it is. */
  lemma {:induction false} ChildUndisturbed(states: seq<Machine>, sections: seq<Section>, cr3: nat, i: nat, j: nat, n: Node)
    requires Run(states, sections) && Inv(states[0]) && Waits(sections, cr3, i, j)
    requires cr3 in states[i].live && Forks(states[i].live[cr3].phase) && n.root == states[i].live[cr3].phase.child
    ensures n in states[j].spaces.nodes <==> n in states[i].spaces.nodes
    ensures n in states[i].spaces.nodes ==> states[j].spaces.nodes[n] == states[i].spaces.nodes[n]
    decreases j
  {
    if i < j {
      ChildUndisturbed(states, sections, cr3, i, j - 1, n);
      Undisturbed(states, sections, cr3, i, j - 1, Node(cr3, []));
      RunKeeps(states, sections, j - 1);
      var m, c := states[j - 1], sections[j - 1];
      RunStep(states, sections, j - 1);
      assert GoodLive(m.spaces, m.live, cr3) && GoodLive(m.spaces, m.live, c.cr3);
      SparesOthers(m, c, states[j], n);
    }
  }

  /** Kernel halves stay, whoever does what. */
  lemma {:induction false} UpperKept(states: seq<Machine>, sections: seq<Section>, i: nat, j: nat, r: nat)
    requires Run(states, sections) && Inv(states[0]) && i <= j <= |sections| && r in states[i].spaces.upper
    ensures r in states[j].spaces.upper && states[j].spaces.upper[r] == states[i].spaces.upper[r]
    decreases j
  {
    if i < j {
      UpperKept(states, sections, i, j - 1, r);
      RunKeeps(states, sections, j - 1);
      RunStep(states, sections, j - 1);
      SpacesKept(states[j - 1], sections[j - 1], states[j]);
    }
  }

  /** The two sections of fork before the child joins. */
  lemma ForkMaps(states: seq<Machine>, sections: seq<Section>, cr3: nat, child: nat, i: nat, j: nat, k: nat, n: Node)
    requires Run(states, sections) && Inv(states[0]) && i < j < k <= |sections| && n.root == child
    requires sections[i] == TakeRoot(cr3, child) && Waits(sections, cr3, i + 1, j)
    requires sections[j] == MapChild(cr3) && Waits(sections, cr3, j + 1, k)
    ensures cr3 in states[i].live && cr3 in states[k].live
    ensures states[k].live[cr3] == Live(states[i].live[cr3].proc, Copying(child))
    ensures n in states[k].spaces.nodes <==> n in ForkNodes(states[i].live[cr3].proc, child)
    ensures n in states[k].spaces.nodes ==> states[k].spaces.nodes[n] % 0x1000 == 7
  {
    RunKeeps(states, sections, i);
    RunStep(states, sections, i);
    assert GoodLive(states[i].spaces, states[i].live, cr3);
    RootKeeps(states[i].spaces, cr3, child);
    assert n !in states[i + 1].spaces.nodes;
    Undisturbed(states, sections, cr3, i + 1, j, Node(cr3, []));
    ChildUndisturbed(states, sections, cr3, i + 1, j, n);
    RunStep(states, sections, j);
    Undisturbed(states, sections, cr3, j + 1, k, Node(cr3, []));
    ChildUndisturbed(states, sections, cr3, j + 1, k, n);
  }

  /**
    A fork in three sections, with any sections of others in between, gives the child
    and its space what they get in one call; see `Lifetimes.ForkDone`.
   */
  lemma ForkAsOneCall(states: seq<Machine>, sections: seq<Section>, cr3: nat, child: nat, i: nat, j: nat, k: nat, n: Node)
    requires Run(states, sections) && Inv(states[0]) && i < j < k < |sections| && n.root == child
    requires sections[i] == TakeRoot(cr3, child) && Waits(sections, cr3, i + 1, j)
    requires sections[j] == MapChild(cr3) && Waits(sections, cr3, j + 1, k) && sections[k] == InsertChild(cr3)
    ensures cr3 in states[i].live && cr3 in states[k + 1].live && child in states[k + 1].live && child != cr3
    ensures var p := states[i].live[cr3].proc;
      && states[k + 1].live[cr3] == Live(p, Between) && states[k + 1].live[child] == Live(p.(cr3 := child), Between)
      && (n in states[k + 1].spaces.nodes <==> n in ForkNodes(p, child))
    ensures n in states[k + 1].spaces.nodes ==> states[k + 1].spaces.nodes[n] % 0x1000 == 7
    ensures cr3 in states[i].spaces.upper && child in states[k + 1].spaces.upper
    ensures states[k + 1].spaces.upper[child] == states[i].spaces.upper[cr3]
  {
    ForkMaps(states, sections, cr3, child, i, j, k, n);
    RunKeeps(states, sections, i);
    RunStep(states, sections, i);
    assert GoodLive(states[i].spaces, states[i].live, cr3);
    UpperKept(states, sections, i + 1, k + 1, child);
    RunKeeps(states, sections, k);
    RunStep(states, sections, k);
    assert GoodLive(states[k].spaces, states[k].live, cr3);
  }

  /** And the parent's own space is as before its fork. */
  lemma ParentAfterFork(states: seq<Machine>, sections: seq<Section>, cr3: nat, child: nat, i: nat, j: nat, k: nat, n: Node)
    requires Run(states, sections) && Inv(states[0]) && i < j < k < |sections| && n.root == cr3
    requires sections[i] == TakeRoot(cr3, child) && Waits(sections, cr3, i + 1, j)
    requires sections[j] == MapChild(cr3) && Waits(sections, cr3, j + 1, k) && sections[k] == InsertChild(cr3)
    ensures n in states[k + 1].spaces.nodes <==> n in states[i].spaces.nodes
    ensures n in states[i].spaces.nodes ==> states[k + 1].spaces.nodes[n] == states[i].spaces.nodes[n]
  {
    RunStep(states, sections, i);
    Undisturbed(states, sections, cr3, i + 1, j, n);
    RunKeeps(states, sections, j);
    RunStep(states, sections, j);
    assert GoodLive(states[j].spaces, states[j].live, cr3);
    ForkPages(states[j].live[cr3].proc, child, n);
    Undisturbed(states, sections, cr3, j + 1, k, n);
    RunStep(states, sections, k);
  }

  /** Between calls a process answers for all pages of its space, and they are what exit frees. */
  lemma OwnPages(m: Machine, cr3: nat, n: Node)
    requires Inv(m) && cr3 in m.live && m.live[cr3].phase.Between?
    requires n in m.spaces.nodes && n.root == cr3 && |n.path| == 4
    ensures InExit(m.live[cr3].proc, n)
  {
    assert Answered(m.live, n);
    var d :| d in m.live && Answers(d, m.live[d], n);
    assert GoodLive(m.spaces, m.live, d);
  }

  /** Exit frees every page of its space, and its frame, though others may be in the middle of calls. */
  lemma ExitFreesAll(m: Machine, cr3: nat, t: Machine, n: Node)
    requires Inv(m) && Step(m, ExitAll(cr3), t) && n.root == cr3 && |n.path| == 4
    ensures n !in t.spaces.nodes && (n in m.spaces.nodes ==> FrameOf(m.spaces.nodes[n]) !in t.spaces.used)
  {
    if n in m.spaces.nodes {
      OwnPages(m, cr3, n);
      assert GoodLive(m.spaces, m.live, cr3);
      ExitIs(m.live[cr3].proc, n);
      DroppedFrameFree(m.spaces, t.spaces, ExitPages(m.live[cr3].proc), n);
    }
  }

  ghost function RootsTaken(sections: seq<Section>, n: nat): nat
    requires n <= |sections|
  {
    if n == 0 then 0 else RootsTaken(sections, n - 1) + (if sections[n - 1].TakeRoot? then 1 else 0)
  }

  lemma RootsStep(m: Machine, c: Section, t: Machine)
    requires Inv(m) && Step(m, c, t)
    ensures |t.spaces.reserved| == |m.spaces.reserved| + (if c.TakeRoot? then 1 else 0)
  {
    SpacesKept(m, c, t);
    if c.TakeRoot? {
      DisjointSum(m.spaces.reserved, {c.child});
    } else {
      assert t.spaces.reserved == m.spaces.reserved;
    }
  }

  lemma {:induction false} RootsHeld(states: seq<Machine>, sections: seq<Section>, n: nat)
    requires Run(states, sections) && Inv(states[0]) && n <= |sections|
    ensures |states[n].spaces.reserved| == |states[0].spaces.reserved| + RootsTaken(sections, n)
  {
    if n > 0 {
      RootsHeld(states, sections, n - 1);
      RunKeeps(states, sections, n - 1);
      RunStep(states, sections, n - 1);
      RootsStep(states[n - 1], sections[n - 1], states[n]);
    }
  }

  /**
    Conservation over every interleaving: in every state the frames in use are those
    reserved at the start, a root for each fork begun, the tables and the pages; and
    once no process is left there are no pages.
   */
  lemma RunConserves(states: seq<Machine>, sections: seq<Section>)
    requires Run(states, sections) && Inv(states[0])
    ensures var b := states[|sections|].spaces;
      && |b.used| == |states[0].spaces.reserved| + RootsTaken(sections, |sections|) + |TableNodes(b)| + |PageNodes(b)|
      && (states[|sections|].live == map[] ==> PageNodes(b) == {})
  {
    var n := |sections|;
    RunKeeps(states, sections, n);
    RootsHeld(states, sections, n);
    FramesAddUp(states[n].spaces);
    if states[n].live == map[] {
      assert forall x :: !Answered(states[n].live, x);
      assert AllAnswered(states[n].spaces, states[n].live);
    }
  }
}
