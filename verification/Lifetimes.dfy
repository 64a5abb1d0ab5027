/**
  What fork, anonymous allocation, execve and exit do to the address spaces of all
  processes, and what holds over every run of them.

  `Syscalls` proves its methods against the relations defined here.
 */
module Lifetimes {

  import opened Bytes
  import opened PageTables
  import opened Spaces
  import Elf

  /** The fields of a process that say what memory it has. */
  datatype Proc = Proc(cr3: nat, elfEnd: nat, anonEnd: nat)

  /** Anonymous memory starts at 8 MiB, grows by whole pages, and stays in the user half. */
  predicate GoodProc(p: Proc) {
    p.elfEnd < 0x1_0000_0000 && p.anonEnd % 0x1000 == 0 && 0x80_0000 <= p.anonEnd <= 0x7fff_ff80_0000
  }

  // -- ranges of pages --------------------------------------------------------

  ghost function PageNode(root: nat, pn: nat): Node {
    Node(root, Digits(pn))
  }

  /** The pages numbered `from` up to but not including `to`. */
  ghost predicate InRange(n: Node, root: nat, from: nat, to: nat) {
    exists pn: nat | from <= pn < to :: n == PageNode(root, pn)
  }

  lemma RangeStep(n: Node, root: nat, from: nat, to: nat)
    requires from <= to
    ensures InRange(n, root, from, to + 1) <==> InRange(n, root, from, to) || n == PageNode(root, to)
  {
    if InRange(n, root, from, to) {
      Widen(n, root, from, to, from, to + 1);
    }
    if n == PageNode(root, to) {
      assert from <= to < to + 1;
    }
  }

  lemma Widen(n: Node, root: nat, a: nat, b: nat, c: nat, d: nat)
    requires InRange(n, root, a, b) && c <= a && b <= d
    ensures InRange(n, root, c, d)
  {
    var pn: nat :| a <= pn < b && n == PageNode(root, pn);
    assert n == PageNode(root, pn);
  }

  lemma {:induction false} RegionIsRange(root: nat, va: nat, count: nat, n: Node)
    ensures n in RegionPages(root, va, count) <==> InRange(n, root, va / 0x1000, va / 0x1000 + count)
  {
    if count > 0 {
      RegionIsRange(root, va, count - 1, n);
      RangeStep(n, root, va / 0x1000, va / 0x1000 + count - 1);
      assert (va + (count - 1) * 0x1000) / 0x1000 == va / 0x1000 + count - 1;
    }
  }

  /** Page numbers below 2^35 are told apart by their nodes. */
  lemma PageNodeInjective(root: nat, a: nat, b: nat)
    requires a < 0x8_0000_0000 && b < 0x8_0000_0000
    ensures PageNode(root, a) == PageNode(root, b) <==> a == b
  {
    PathOfInjective(a * 0x1000, b * 0x1000);
  }

  /** One past the last page that holds an address below `end`. */
  function PageEnd(end: nat): nat {
    (end + 0xfff) / 0x1000
  }

  /** The page loops reach exactly the pages below the end. */
  lemma LoopRange(root: nat, start: nat, end: nat, n: Node)
    requires start % 0x1000 == 0
    ensures RoundDown(start) == start
    ensures n in RegionPages(root, start, Turns(start, end)) <==> InRange(n, root, start / 0x1000, PageEnd(end))
  {
    RegionIsRange(root, start, Turns(start, end), n);
    if start >= end {
      assert PageEnd(end) <= start / 0x1000;
    } else {
      assert start / 0x1000 + Turns(start, end) == PageEnd(end);
    }
  }

  // -- the pages each call works on -------------------------------------------

  /** What exit frees: the stack, the program, the anonymous memory. */
  ghost function ExitPages(p: Proc): set<Node> {
    RegionPages(p.cr3, 0x20_0000, Turns(0x20_0000, 0x40_0000))
    + RegionPages(p.cr3, 0x40_0000, Turns(0x40_0000, p.elfEnd))
    + RegionPages(p.cr3, 0x80_0000, Turns(0x80_0000, p.anonEnd))
  }

  /** What execve frees first: the old program and the anonymous memory. */
  ghost function ExecPages(p: Proc): set<Node> {
    RegionPages(p.cr3, 0x40_0000, Turns(0x40_0000, p.elfEnd))
    + RegionPages(p.cr3, 0x80_0000, Turns(0x80_0000, p.anonEnd))
  }

  /** What fork maps in the new space. */
  ghost function ForkNodes(p: Proc, r: nat): set<Node> {
    RegionNodes(r, 0x20_0000, Turns(0x20_0000, p.elfEnd)) + RegionNodes(r, 0x80_0000, Turns(0x80_0000, p.anonEnd))
  }

  /** What execve maps for the file it reads: a buffer at the bottom of the anonymous memory. */
  ghost function BufferNodes(cr3: nat, size: nat): set<Node> {
    RegionNodes(cr3, 0x80_0000, Turns(0x80_0000, 0x80_0000 + size))
  }

  ghost function BufferPages(cr3: nat, size: nat): set<Node> {
    RegionPages(cr3, 0x80_0000, Turns(0x80_0000, 0x80_0000 + size))
  }

  ghost predicate InExit(p: Proc, n: Node) {
    || InRange(n, p.cr3, 0x200, 0x400) || InRange(n, p.cr3, 0x400, PageEnd(p.elfEnd))
    || InRange(n, p.cr3, 0x800, PageEnd(p.anonEnd))
  }

  lemma ExitIs(p: Proc, n: Node)
    ensures n in ExitPages(p) <==> InExit(p, n)
    ensures n in ExecPages(p) <==>
      InRange(n, p.cr3, 0x400, PageEnd(p.elfEnd)) || InRange(n, p.cr3, 0x800, PageEnd(p.anonEnd))
  {
    LoopRange(p.cr3, 0x20_0000, 0x40_0000, n);
    LoopRange(p.cr3, 0x40_0000, p.elfEnd, n);
    LoopRange(p.cr3, 0x80_0000, p.anonEnd, n);
  }

  // -- the calls --------------------------------------------------------------

  ghost predicate AnonDone(a: Spaces, b: Spaces, p: Proc, q: Proc, count: nat) {
    q == p.(anonEnd := p.anonEnd + count * 0x1000) && Grows(a, b, RegionNodes(p.cr3, p.anonEnd, count), 7)
  }

  ghost predicate ExitDone(a: Spaces, b: Spaces, p: Proc) {
    Shrinks(a, b, ExitPages(p))
  }

  ghost predicate ForkDone(a: Spaces, b: Spaces, p: Proc, q: Proc) {
    q == p.(cr3 := q.cr3) && CanRoot(a, p.cr3, q.cr3) && Grows(WithRoot(a, p.cr3, q.cr3), b, ForkNodes(p, q.cr3), 7)
  }

  /**
    The states in between: the old program gone, the file's buffer there, the new
    program mapped.
   */
  datatype Stages = Stages(cleared: Spaces, buffered: Spaces, loaded: Spaces)

  ghost predicate ExecDone(a: Spaces, st: Stages, b: Spaces, p: Proc, q: Proc, size: nat, programs: seq<Elf.Program>) {
    && q == Proc(p.cr3, Elf.Highest(programs), 0x80_0000)
    && Shrinks(a, st.cleared, ExecPages(p))
    && Grows(st.cleared, st.buffered, BufferNodes(p.cr3, size), 3)
    && Grows(st.buffered, st.loaded, Elf.AllNodes(p.cr3, programs), 7)
    && Shrinks(st.loaded, b, BufferPages(p.cr3, size))
  }

  /** Segments lie above the first 2 MiB and end below 4 GiB. */
  predicate PlacedPrograms(programs: seq<Elf.Program>) {
    forall p | p in programs && Elf.Loadable(p) :: 0x20_0000 <= p.vaddr && p.vaddr + p.memsz < 0x1_0000_0000
  }

  /**
    No segment lies in the buffer the loader reads the file from, headers included; see
    `Executing.BufferHoldsFile` and `Executing.BufferOverwritten`.
   */
  predicate MissesBuffer(programs: seq<Elf.Program>, size: nat) {
    Elf.Misses(programs, 0x80_0000, size)
  }

  // -- all processes ----------------------------------------------------------

  /** The live user processes, by the root of their address space. */
  datatype System = System(spaces: Spaces, procs: map<nat, Proc>)

  ghost predicate SystemInv(s: System) {
    && SpacesInv(s.spaces)
    && (forall c | c in s.procs :: s.procs[c].cr3 == c && c in s.spaces.upper && GoodProc(s.procs[c]))
    && (forall n | n in s.spaces.nodes && |n.path| == 4 :: n.root in s.procs && InExit(s.procs[n.root], n))
  }

  datatype Call =
    | Anon(cr3: nat, count: nat)
    | Fork(cr3: nat, child: nat)
    | Exec(cr3: nat, stages: Stages, size: nat, programs: seq<Elf.Program>)
    | Exit(cr3: nat)

  /** One completed call of one live process. */
  ghost predicate Step(s: System, c: Call, t: System) {
    && c.cr3 in s.procs
    && var p := s.procs[c.cr3];
      match c
      case Anon(cr3, count) =>
        && cr3 in t.procs && GoodProc(t.procs[cr3]) && t.procs == s.procs[cr3 := t.procs[cr3]]
        && AnonDone(s.spaces, t.spaces, p, t.procs[cr3], count)
      case Fork(cr3, child) =>
        && child in t.procs && t.procs == s.procs[child := t.procs[child]] && t.procs[child].cr3 == child
        && ForkDone(s.spaces, t.spaces, p, t.procs[child])
      case Exec(cr3, st, size, programs) =>
        && cr3 in t.procs && t.procs == s.procs[cr3 := t.procs[cr3]]
        && PlacedPrograms(programs) && MissesBuffer(programs, size)
        && ExecDone(s.spaces, st, t.spaces, p, t.procs[cr3], size, programs)
      case Exit(cr3) =>
        t.procs == s.procs - {cr3} && ExitDone(s.spaces, t.spaces, p)
  }

  lemma AnonPages(p: Proc, count: nat, n: Node)
    requires p.anonEnd % 0x1000 == 0 && 0x80_0000 <= p.anonEnd
    requires n in RegionNodes(p.cr3, p.anonEnd, count) && |n.path| == 4
    ensures InRange(n, p.cr3, 0x800, PageEnd(p.anonEnd + count * 0x1000))
  {
    PagesAreNodes(p.cr3, p.anonEnd, count);
    RegionIsRange(p.cr3, p.anonEnd, count, n);
    var pn: nat :| p.anonEnd / 0x1000 <= pn < p.anonEnd / 0x1000 + count && n == PageNode(p.cr3, pn);
    assert PageEnd(p.anonEnd + count * 0x1000) == p.anonEnd / 0x1000 + count;
    assert n == PageNode(p.cr3, pn);
  }

  lemma AnonKeeps(s: System, count: nat, cr3: nat, t: System)
    requires SystemInv(s) && Step(s, Anon(cr3, count), t)
    ensures SystemInv(t)
  {
    var p := s.procs[cr3];
    forall n | n in t.spaces.nodes && |n.path| == 4 ensures n.root in t.procs && InExit(t.procs[n.root], n) {
      if n in s.spaces.nodes {
        if n.root == cr3 && InRange(n, cr3, 0x800, PageEnd(p.anonEnd)) {
          Widen(n, cr3, 0x800, PageEnd(p.anonEnd), 0x800, PageEnd(t.procs[cr3].anonEnd));
        }
      } else {
        PagesAreNodes(cr3, p.anonEnd, count);
        AnonPages(p, count, n);
      }
    }
  }

  lemma ExitKeeps(s: System, cr3: nat, t: System)
    requires SystemInv(s) && Step(s, Exit(cr3), t)
    ensures SystemInv(t)
  {
    forall n | n in t.spaces.nodes && |n.path| == 4 ensures n.root in t.procs && InExit(t.procs[n.root], n) {
      assert n in s.spaces.nodes;
      ExitIs(s.procs[cr3], n);
    }
  }

  /** Page numbers from 0x200 below the program's end are in the two lower ranges exit frees. */
  lemma LowRange(n: Node, root: nat, from: nat, end: nat)
    requires 0x200 <= from && InRange(n, root, from, PageEnd(end))
    ensures InRange(n, root, 0x200, 0x400) || InRange(n, root, 0x400, PageEnd(end))
  {
    var pn: nat :| from <= pn < PageEnd(end) && n == PageNode(root, pn);
    assert n == PageNode(root, pn);
  }

  /** The pages fork maps: those below the program's end from 2 MiB on, and the anonymous ones. */
  lemma ForkPages(p: Proc, r: nat, n: Node)
    ensures n in ForkNodes(p, r) ==> n.root == r
    ensures n in ForkNodes(p, r) && |n.path| == 4 <==>
      InRange(n, r, 0x200, PageEnd(p.elfEnd)) || InRange(n, r, 0x800, PageEnd(p.anonEnd))
  {
    PagesAreNodes(r, 0x20_0000, Turns(0x20_0000, p.elfEnd));
    PagesAreNodes(r, 0x80_0000, Turns(0x80_0000, p.anonEnd));
    LoopRange(r, 0x20_0000, p.elfEnd, n);
    LoopRange(r, 0x80_0000, p.anonEnd, n);
  }

  lemma ForkKeeps(s: System, cr3: nat, child: nat, t: System)
    requires SystemInv(s) && Step(s, Fork(cr3, child), t)
    ensures SystemInv(t) && child !in s.procs
  {
    var p := s.procs[cr3];
    RootKeeps(s.spaces, cr3, child);
    forall n | n in t.spaces.nodes && |n.path| == 4 ensures n.root in t.procs && InExit(t.procs[n.root], n) {
      if n !in s.spaces.nodes {
        ForkPages(p, child, n);
        if InRange(n, child, 0x200, PageEnd(p.elfEnd)) {
          LowRange(n, child, 0x200, p.elfEnd);
        }
      }
    }
  }

  /** A segment's pages end with the page of its last byte, wherever in its first page it starts. */
  lemma SegmentRange(cr3: nat, p: Elf.Program, n: Node)
    requires Elf.Loadable(p) && 0x20_0000 <= p.vaddr && n in Elf.SegmentNodes(cr3, p) && |n.path| == 4
    ensures InRange(n, cr3, 0x200, PageEnd(p.vaddr + p.memsz))
  {
    PagesAreNodes(cr3, p.vaddr, Elf.PageCount(p));
    RegionIsRange(cr3, p.vaddr, Elf.PageCount(p), n);
    Widen(n, cr3, p.vaddr / 0x1000, p.vaddr / 0x1000 + Elf.PageCount(p), 0x200, PageEnd(p.vaddr + p.memsz));
  }

  lemma {:induction false} ProgramPages(cr3: nat, programs: seq<Elf.Program>, n: Node)
    requires PlacedPrograms(programs) && n in Elf.AllNodes(cr3, programs)
    ensures n.root == cr3
    ensures |n.path| == 4 ==> InRange(n, cr3, 0x200, PageEnd(Elf.Highest(programs)))
  {
    var front, p := programs[..|programs| - 1], programs[|programs| - 1];
    assert programs == front + [p];
    Elf.HighestMore(front, p);
    if n in Elf.AllNodes(cr3, front) {
      ProgramPages(cr3, front, n);
      if |n.path| == 4 {
        Widen(n, cr3, 0x200, PageEnd(Elf.Highest(front)), 0x200, PageEnd(Elf.Highest(programs)));
      }
    } else {
      PagesAreNodes(cr3, p.vaddr, Elf.PageCount(p));
      if |n.path| == 4 {
        SegmentRange(cr3, p, n);
        Widen(n, cr3, 0x200, PageEnd(p.vaddr + p.memsz), 0x200, PageEnd(Elf.Highest(programs)));
      }
    }
  }

  lemma {:induction false} HighestBelow(programs: seq<Elf.Program>)
    requires PlacedPrograms(programs)
    ensures Elf.Highest(programs) < 0x1_0000_0000
  {
    if programs != [] {
      assert programs == programs[..|programs| - 1] + [programs[|programs| - 1]];
      HighestBelow(programs[..|programs| - 1]);
    }
  }

  /** The page nodes execve leaves: old ones it did not clear, and those of the new program. */
  lemma ExecLeaves(a: Spaces, st: Stages, b: Spaces, p: Proc, q: Proc, size: nat, programs: seq<Elf.Program>, n: Node)
    requires ExecDone(a, st, b, p, q, size, programs) && n in b.nodes && |n.path| == 4
    ensures (n in a.nodes && n !in ExecPages(p)) || n in Elf.AllNodes(p.cr3, programs)
  {
    PagesAreNodes(p.cr3, 0x80_0000, Turns(0x80_0000, 0x80_0000 + size));
  }

  lemma ExecNode(s: System, cr3: nat, st: Stages, size: nat, programs: seq<Elf.Program>, t: System, n: Node)
    requires SystemInv(s) && Step(s, Exec(cr3, st, size, programs), t) && n in t.spaces.nodes && |n.path| == 4
    ensures n.root in t.procs && InExit(t.procs[n.root], n)
  {
    var p, q := s.procs[cr3], t.procs[cr3];
    ExecLeaves(s.spaces, st, t.spaces, p, q, size, programs, n);
    if n in Elf.AllNodes(cr3, programs) {
      ProgramPages(cr3, programs, n);
      LowRange(n, cr3, 0x200, q.elfEnd);
    } else {
      ExitIs(p, n);
    }
  }

  lemma ExecKeeps(s: System, cr3: nat, st: Stages, size: nat, programs: seq<Elf.Program>, t: System)
    requires SystemInv(s) && Step(s, Exec(cr3, st, size, programs), t)
    ensures SystemInv(t)
  {
    HighestBelow(programs);
    forall n | n in t.spaces.nodes && |n.path| == 4 ensures n.root in t.procs && InExit(t.procs[n.root], n) {
      ExecNode(s, cr3, st, size, programs, t, n);
    }
  }

  /** The state when the first user process starts: a fresh space with its stack and its program. */
  lemma InitialSystem(a: Spaces, half: Spaces, b: Spaces, cr3: nat, programs: seq<Elf.Program>)
    requires SpacesInv(a) && a.nodes == map[] && cr3 in a.upper && PlacedPrograms(programs)
    requires Grows(a, half, RegionNodes(cr3, 0x20_0000, Turns(0x20_0000, 0x40_0000)), 7)
    requires Grows(half, b, Elf.AllNodes(cr3, programs), 7)
    ensures SystemInv(System(b, map[cr3 := Proc(cr3, Elf.Highest(programs), 0x80_0000)]))
  {
    var p := Proc(cr3, Elf.Highest(programs), 0x80_0000);
    HighestBelow(programs);
    forall n | n in b.nodes && |n.path| == 4 ensures n.root == cr3 && InExit(p, n) {
      if n in half.nodes {
        PagesAreNodes(cr3, 0x20_0000, Turns(0x20_0000, 0x40_0000));
        LoopRange(cr3, 0x20_0000, 0x40_0000, n);
      } else {
        ProgramPages(cr3, programs, n);
        LowRange(n, cr3, 0x200, p.elfEnd);
      }
    }
  }

  /** Every call keeps the pages of every process inside what its exit frees. */
  lemma StepKeeps(s: System, c: Call, t: System)
    requires SystemInv(s) && Step(s, c, t)
    ensures SystemInv(t)
  {
    match c
    case Anon(cr3, count) => AnonKeeps(s, count, cr3, t);
    case Fork(cr3, child) => ForkKeeps(s, cr3, child, t);
    case Exec(cr3, st, size, programs) => ExecKeeps(s, cr3, st, size, programs, t);
    case Exit(cr3) => ExitKeeps(s, cr3, t);
  }

  // -- where the frames are ---------------------------------------------------

  ghost function PageNodes(a: Spaces): set<Node> {
    set n | n in a.nodes && |n.path| == 4 :: n
  }

  ghost function TableNodes(a: Spaces): set<Node> {
    set n | n in a.nodes && |n.path| != 4 :: n
  }

  /** Every frame in use is reserved, a table or a page, and is counted once. */
  lemma FramesAddUp(a: Spaces)
    requires SpacesInv(a)
    ensures |a.used| == |a.reserved| + |TableNodes(a)| + |PageNodes(a)|
  {
    UsedCount(a);
    assert a.nodes.Keys == TableNodes(a) + PageNodes(a);
    DisjointSum(TableNodes(a), PageNodes(a));
    assert |a.nodes| == |a.nodes.Keys|;
  }

  /** Exit removes exactly the pages of the process's space, and gives one frame back for each. */
  lemma ExitReturnsAllPages(s: System, cr3: nat, t: System)
    requires SystemInv(s) && Step(s, Exit(cr3), t)
    ensures forall n :: n in t.spaces.nodes <==> n in s.spaces.nodes && !(n.root == cr3 && |n.path| == 4)
    ensures forall n | n in t.spaces.nodes :: t.spaces.nodes[n] == s.spaces.nodes[n]
    ensures forall n | n in s.spaces.nodes && n !in t.spaces.nodes :: FrameOf(s.spaces.nodes[n]) !in t.spaces.used
    ensures |t.spaces.used| + |PageNodes(s.spaces)| == |s.spaces.used| + |PageNodes(t.spaces)|
  {
    var a, b, p := s.spaces, t.spaces, s.procs[cr3];
    forall n ensures n in b.nodes <==> n in a.nodes && !(n.root == cr3 && |n.path| == 4) {
      ExitIs(p, n);
      if n in a.nodes && |n.path| == 4 {
        assert InExit(s.procs[n.root], n);
      }
    }
    forall n | n in a.nodes && n !in b.nodes ensures FrameOf(a.nodes[n]) !in b.used {
      DroppedFrameFree(a, b, ExitPages(p), n);
    }
    FramesAddUp(a);
    FramesAddUp(b);
    assert TableNodes(a) == TableNodes(b);
  }

  /** No call of one process touches what another has mapped; only fork adds to another space, its child's. */
  lemma StepSparesOthers(s: System, c: Call, t: System, n: Node)
    requires SystemInv(s) && Step(s, c, t) && n.root != c.cr3 && !(c.Fork? && n.root == c.child)
    ensures n in t.spaces.nodes <==> n in s.spaces.nodes
    ensures n in s.spaces.nodes ==> t.spaces.nodes[n] == s.spaces.nodes[n]
  {
    var p := s.procs[c.cr3];
    match c
    case Anon(cr3, count) => PagesAreNodes(cr3, p.anonEnd, count);
    case Fork(cr3, child) =>
      ForkPages(p, child, n);
    case Exec(cr3, st, size, programs) =>
      ExecElsewhere(s.spaces, st, t.spaces, p, t.procs[cr3], size, programs, n);
    case Exit(cr3) => ExitElsewhere(p, n);
  }

  lemma ExitElsewhere(p: Proc, n: Node)
    requires n.root != p.cr3
    ensures n !in ExitPages(p) && n !in ExecPages(p)
  {
    ExitIs(p, n);
  }

  lemma ExecElsewhere(a: Spaces, st: Stages, b: Spaces, p: Proc, q: Proc, size: nat, programs: seq<Elf.Program>, n: Node)
    requires ExecDone(a, st, b, p, q, size, programs) && PlacedPrograms(programs) && n.root != p.cr3
    ensures n in b.nodes <==> n in a.nodes
    ensures n in a.nodes ==> b.nodes[n] == a.nodes[n]
  {
    ExitElsewhere(p, n);
    PagesAreNodes(p.cr3, 0x80_0000, Turns(0x80_0000, 0x80_0000 + size));
    if n in Elf.AllNodes(p.cr3, programs) {
      ProgramPages(p.cr3, programs, n);
    }
  }

  /** The nodes other than pages are still there, on the same frames. */
  ghost predicate TablesKept(a: Spaces, b: Spaces) {
    forall n | n in a.nodes && |n.path| != 4 :: n in b.nodes && b.nodes[n] == a.nodes[n]
  }

  /** Page tables are never given back: a table once there stays, on the same frame. */
  lemma TablesStay(s: System, c: Call, t: System)
    requires SystemInv(s) && Step(s, c, t)
    ensures TablesKept(s.spaces, t.spaces)
  {
    match c
    case Anon(cr3, count) =>
    case Fork(cr3, child) =>
    case Exec(cr3, st, size, programs) => ExecKeepsTables(s.spaces, st, t.spaces, s.procs[cr3], t.procs[cr3], size, programs);
    case Exit(cr3) => ShrinkKeepsTables(s.spaces, t.spaces, s.procs[cr3], ExitPages(s.procs[cr3]));
  }

  lemma ShrinkKeepsTables(a: Spaces, b: Spaces, p: Proc, gone: set<Node>)
    requires Shrinks(a, b, gone) && (gone == ExitPages(p) || gone == ExecPages(p))
    ensures TablesKept(a, b)
  {
    forall n | n in a.nodes && |n.path| != 4 ensures n !in gone {
      FourDeep(p, n);
    }
  }

  lemma ExecKeepsTables(a: Spaces, st: Stages, b: Spaces, p: Proc, q: Proc, size: nat, programs: seq<Elf.Program>)
    requires ExecDone(a, st, b, p, q, size, programs)
    ensures TablesKept(a, b)
  {
    ShrinkKeepsTables(a, st.cleared, p, ExecPages(p));
    PagesAreNodes(p.cr3, 0x80_0000, Turns(0x80_0000, 0x80_0000 + size));
  }

  lemma FourDeep(p: Proc, n: Node)
    requires |n.path| != 4
    ensures n !in ExitPages(p) && n !in ExecPages(p)
  {
    ExitIs(p, n);
  }

  // -- runs -------------------------------------------------------------------

  ghost predicate Run(states: seq<System>, calls: seq<Call>) {
    |states| == |calls| + 1 && forall i | 0 <= i < |calls| :: Step(states[i], calls[i], states[i + 1])
  }

  lemma RunFront(states: seq<System>, calls: seq<Call>)
    requires Run(states, calls) && calls != []
    ensures Run(states[..|calls|], calls[..|calls| - 1])
    ensures Step(states[|calls| - 1], calls[|calls| - 1], states[|calls|])
  {}

  lemma {:induction false} RunKeeps(states: seq<System>, calls: seq<Call>)
    requires Run(states, calls) && SystemInv(states[0])
    ensures forall i | 0 <= i < |states| :: SystemInv(states[i])
  {
    if calls != [] {
      RunFront(states, calls);
      RunKeeps(states[..|calls|], calls[..|calls| - 1]);
      assert states[..|calls|][|calls| - 1] == states[|calls| - 1];
      StepKeeps(states[|calls| - 1], calls[|calls| - 1], states[|calls|]);
      forall i | 0 <= i < |states| ensures SystemInv(states[i]) {
        assert i < |calls| ==> states[..|calls|][i] == states[i];
      }
    }
  }

  ghost function Forks(calls: seq<Call>): nat {
    if calls == [] then 0 else Forks(calls[..|calls| - 1]) + (if calls[|calls| - 1].Fork? then 1 else 0)
  }

  /** Only fork takes frames for good besides tables: one root table each. */
  lemma {:induction false} RootsHeld(states: seq<System>, calls: seq<Call>)
    requires Run(states, calls) && SystemInv(states[0])
    ensures |states[|calls|].spaces.reserved| == |states[0].spaces.reserved| + Forks(calls)
  {
    if calls != [] {
      var n := |calls| - 1;
      RunFront(states, calls);
      RootsHeld(states[..n + 1], calls[..n]);
      RunKeeps(states, calls);
      var s, t := states[n], states[n + 1];
      match calls[n]
      case Anon(_, _) =>
      case Fork(cr3, child) =>
        RootKeeps(s.spaces, cr3, child);
        DisjointSum(s.spaces.reserved, {child});
      case Exec(_, _, _, _) =>
      case Exit(_) =>
    }
  }

  /**
    Conservation over a whole run: once every process has exited no page is mapped,
    and the frames in use are those reserved at the start, one root for each fork,
    and the tables.
   */
  lemma RunConserves(states: seq<System>, calls: seq<Call>)
    requires Run(states, calls) && SystemInv(states[0]) && states[|calls|].procs == map[]
    ensures var b := states[|calls|].spaces;
      && PageNodes(b) == {}
      && |b.used| == |states[0].spaces.reserved| + Forks(calls) + |TableNodes(b)|
  {
    RunKeeps(states, calls);
    RootsHeld(states, calls);
    FramesAddUp(states[|calls|].spaces);
    assert SystemInv(states[|calls|]);
  }
}
