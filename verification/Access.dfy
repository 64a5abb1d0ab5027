/**
  Which mapped pages a process can use from user mode: the flags of the entries on the
  way to a page, and what each call does to them.
 */
module Access {

  import opened PageTables
  import opened Spaces
  import opened Lifetimes
  import opened Executing
  import Elf

  /** The bit every entry on the way must have, or user mode is refused. */
  predicate HasUser(e: nat) {
    e / 4 % 2 == 1
  }

  lemma UserFromFlags(e: nat)
    ensures HasUser(e) <==> HasUser(e % 0x1000)
  {
    assert e / 4 == 1024 * (e / 0x1000) + e % 0x1000 / 4;
  }

  /** An entry that is there and lets user mode through. */
  ghost predicate UserEntry(a: Spaces, n: Node) {
    n in a.nodes && HasUser(a.nodes[n])
  }

  /** User code of the space can use the page of `x`. */
  ghost predicate Reachable(a: Spaces, root: nat, x: nat) {
    forall i | 1 <= i <= 4 :: UserEntry(a, Node(root, PathOf(x)[..i]))
  }

  /** That is what the tables in memory say, read from the root on. */
  lemma ReachableInTables(words: Words, a: Spaces, root: nat, x: nat)
    requires TreeInv(words, a.nodes, a.upper.Keys) && root in a.upper && x < 0x8000_0000_0000
    ensures Reachable(a, root, x) <==> forall i | 1 <= i <= 4 :: HasUser(Entry(words, root, PathOf(x)[..i]))
  {
    var q := PathOf(x);
    PathOfUser(x);
    forall i | 1 <= i <= 4
      ensures UserEntry(a, Node(root, q[..i])) <==> HasUser(Entry(words, root, q[..i]))
    {
      assert UserPath(q[..i]);
      assert Entry(words, root, q[..i]) == Lookup(a.nodes, root, q[..i]);
    }
  }

  ghost predicate AllUser(a: Spaces) {
    forall n | n in a.nodes :: UserEntry(a, n)
  }

  /** With the user bit everywhere, the mapped pages are those that can be used. */
  lemma MappedIsReachable(words: Words, a: Spaces, root: nat, x: nat)
    requires TreeInv(words, a.nodes, a.upper.Keys) && AllUser(a)
    ensures Reachable(a, root, x) <==> Mapped(a, root, x)
  {
    var q, roots := PathOf(x), a.upper.Keys;
    assert q[..4] == q;
    if Mapped(a, root, x) {
      Prefixes(q);
      EntryWordIn(words, a.nodes, roots, root, q);
      EntryWordIn(words, a.nodes, roots, root, q[..3]);
      EntryWordIn(words, a.nodes, roots, root, q[..2]);
      forall i | 1 <= i <= 4 ensures UserEntry(a, Node(root, q[..i])) {
        assert i == 1 || i == 2 || i == 3 || i == 4;
      }
    }
  }

  // -- what the calls do to the bit ---------------------------------------------

  lemma NewEntry(a: Spaces, b: Spaces, more: set<Node>, flags: nat, n: Node)
    requires Grows(a, b, more, flags) && n in b.nodes && n !in a.nodes
    ensures n in more && (UserEntry(b, n) <==> HasUser(flags))
  {
    UserFromFlags(b.nodes[n]);
  }

  lemma TableThroughStages(a: Spaces, st: Stages, b: Spaces, first: set<Node>, buffer: set<Node>, programs: set<Node>,
                           gone: set<Node>, n: Node)
    requires Shrinks(a, st.cleared, first) && Grows(st.cleared, st.buffered, buffer, 3)
    requires Grows(st.buffered, st.loaded, programs, 7) && Shrinks(st.loaded, b, gone) && n !in first && n !in gone
    ensures n in a.nodes ==> n in b.nodes && b.nodes[n] == a.nodes[n]
    ensures n !in a.nodes && n in buffer ==> n in b.nodes && !UserEntry(b, n)
    ensures n in b.nodes && n !in a.nodes && n !in buffer ==> UserEntry(b, n)
  {
    if n in st.buffered.nodes && n !in a.nodes {
      NewEntry(st.cleared, st.buffered, buffer, 3, n);
    } else if n in st.loaded.nodes && n !in a.nodes {
      NewEntry(st.buffered, st.loaded, programs, 7, n);
    }
  }

  lemma PageThroughStages(a: Spaces, st: Stages, b: Spaces, first: set<Node>, buffer: set<Node>, programs: set<Node>,
                          gone: set<Node>, n: Node)
    requires Shrinks(a, st.cleared, first) && Grows(st.cleared, st.buffered, buffer, 3)
    requires Grows(st.buffered, st.loaded, programs, 7) && Shrinks(st.loaded, b, gone)
    requires n in b.nodes && (n in buffer ==> n in gone)
    ensures UserEntry(b, n) || (n in a.nodes && n !in first && b.nodes[n] == a.nodes[n])
  {
    if n !in st.buffered.nodes {
      NewEntry(st.buffered, st.loaded, programs, 7, n);
    }
  }

  /** The file's buffer is the one thing mapped without the bit; its tables stay when it goes. */
  lemma TableAfterExec(a: Spaces, st: Stages, b: Spaces, p: Proc, q: Proc, size: nat, programs: seq<Elf.Program>, n: Node)
    requires ExecDone(a, st, b, p, q, size, programs) && |n.path| != 4
    ensures n in a.nodes ==> n in b.nodes && b.nodes[n] == a.nodes[n]
    ensures n !in a.nodes && n in BufferNodes(p.cr3, size) ==> n in b.nodes && !UserEntry(b, n)
    ensures n in b.nodes && n !in a.nodes && n !in BufferNodes(p.cr3, size) ==> UserEntry(b, n)
  {
    FourDeep(p, n);
    BufferLeaves(p.cr3, size, n);
    TableThroughStages(a, st, b, ExecPages(p), BufferNodes(p.cr3, size), Elf.AllNodes(p.cr3, programs),
                       BufferPages(p.cr3, size), n);
  }

  lemma BufferLeaves(cr3: nat, size: nat, n: Node)
    ensures |n.path| == 4 && n in BufferNodes(cr3, size) ==> n in BufferPages(cr3, size)
    ensures |n.path| != 4 ==> n !in BufferPages(cr3, size)
  {
    PagesAreNodes(cr3, 0x80_0000, Turns(0x80_0000, 0x80_0000 + size));
  }

  lemma PageAfterExec(a: Spaces, st: Stages, b: Spaces, p: Proc, q: Proc, size: nat, programs: seq<Elf.Program>, n: Node)
    requires ExecDone(a, st, b, p, q, size, programs) && |n.path| == 4 && n in b.nodes
    ensures UserEntry(b, n) || (n in a.nodes && n !in ExecPages(p) && b.nodes[n] == a.nodes[n])
  {
    BufferLeaves(p.cr3, size, n);
    PageThroughStages(a, st, b, ExecPages(p), BufferNodes(p.cr3, size), Elf.AllNodes(p.cr3, programs),
                      BufferPages(p.cr3, size), n);
  }

  /** The tables the buffer needs. */
  ghost predicate BufferTables(a: Spaces, cr3: nat, size: nat) {
    forall n | n in BufferNodes(cr3, size) && |n.path| != 4 :: n in a.nodes
  }

  /** Execve leaves the bit everywhere exactly when all tables for the buffer were there already. */
  lemma ExecKeepsUserExactlyWhen(a: Spaces, st: Stages, b: Spaces, p: Proc, q: Proc, size: nat, programs: seq<Elf.Program>)
    requires ExecDone(a, st, b, p, q, size, programs) && AllUser(a)
    ensures AllUser(b) <==> BufferTables(a, p.cr3, size)
  {
    forall n | n in BufferNodes(p.cr3, size) && |n.path| != 4 && n !in a.nodes ensures n in b.nodes && !UserEntry(b, n) {
      TableAfterExec(a, st, b, p, q, size, programs, n);
    }
    forall n | n in b.nodes && BufferTables(a, p.cr3, size) ensures UserEntry(b, n) {
      assert n in a.nodes ==> UserEntry(a, n);
      if |n.path| == 4 {
        PageAfterExec(a, st, b, p, q, size, programs, n);
      } else {
        TableAfterExec(a, st, b, p, q, size, programs, n);
      }
    }
  }

  lemma GrowsUser(a: Spaces, b: Spaces, more: set<Node>)
    requires Grows(a, b, more, 7) && AllUser(a)
    ensures AllUser(b)
  {
    forall n | n in b.nodes ensures UserEntry(b, n) {
      if n in a.nodes {
        assert UserEntry(a, n);
      } else {
        NewEntry(a, b, more, 7, n);
      }
    }
  }

  lemma ShrinksUser(a: Spaces, b: Spaces, less: set<Node>)
    requires Shrinks(a, b, less) && AllUser(a)
    ensures AllUser(b)
  {
    forall n | n in b.nodes ensures UserEntry(b, n) {
      assert UserEntry(a, n);
    }
  }

  /** What a call needs to leave the bit everywhere: only execve needs anything. */
  ghost predicate BufferReady(s: System, c: Call) {
    c.Exec? ==> BufferTables(s.spaces, c.cr3, c.size)
  }

  lemma StepKeepsUserExactlyWhen(s: System, c: Call, t: System)
    requires SystemInv(s) && Step(s, c, t) && AllUser(s.spaces)
    ensures AllUser(t.spaces) <==> BufferReady(s, c)
  {
    var a, b, p := s.spaces, t.spaces, s.procs[c.cr3];
    match c
    case Anon(cr3, count) => GrowsUser(a, b, RegionNodes(cr3, p.anonEnd, count));
    case Fork(cr3, child) =>
      assert AllUser(WithRoot(a, cr3, child)) by {
        forall n | n in a.nodes ensures UserEntry(WithRoot(a, cr3, child), n) {
          assert UserEntry(a, n);
        }
      }
      GrowsUser(WithRoot(a, cr3, child), b, ForkNodes(p, child));
    case Exec(cr3, st, size, programs) => ExecKeepsUserExactlyWhen(a, st, b, p, t.procs[cr3], size, programs);
    case Exit(cr3) => ShrinksUser(a, b, ExitPages(p));
  }

  /**
    Over every run from a state with the bit everywhere: it is everywhere in every
    state exactly when no execve of the run had to make a table for its buffer.
   */
  lemma RunKeepsUserExactlyWhen(states: seq<System>, calls: seq<Call>)
    requires Run(states, calls) && SystemInv(states[0]) && AllUser(states[0].spaces)
    ensures (forall i | 0 <= i < |states| :: AllUser(states[i].spaces))
      <==> forall i | 0 <= i < |calls| :: BufferReady(states[i], calls[i])
  {
    RunKeeps(states, calls);
    UserUpTo(states, calls, |calls|);
  }

  lemma {:induction false} UserUpTo(states: seq<System>, calls: seq<Call>, n: nat)
    requires Run(states, calls) && n <= |calls| && (forall i | 0 <= i < |states| :: SystemInv(states[i]))
    requires AllUser(states[0].spaces)
    ensures (forall i | 0 <= i <= n :: AllUser(states[i].spaces))
      <==> forall i | 0 <= i < n :: BufferReady(states[i], calls[i])
  {
    if n > 0 {
      UserUpTo(states, calls, n - 1);
      if AllUser(states[n - 1].spaces) {
        StepKeepsUserExactlyWhen(states[n - 1], calls[n - 1], states[n - 1 + 1]);
      }
    }
  }

  /** The first process starts with the bit everywhere. */
  lemma InitialUser(a: Spaces, half: Spaces, b: Spaces, cr3: nat, programs: seq<Elf.Program>)
    requires SpacesInv(a) && a.nodes == map[]
    requires Grows(a, half, RegionNodes(cr3, 0x20_0000, Turns(0x20_0000, 0x40_0000)), 7)
    requires Grows(half, b, Elf.AllNodes(cr3, programs), 7)
    ensures AllUser(b)
  {
    GrowsUser(a, half, RegionNodes(cr3, 0x20_0000, Turns(0x20_0000, 0x40_0000)));
    GrowsUser(half, b, Elf.AllNodes(cr3, programs));
  }

  // -- memory allocated after execve ----------------------------------------------

  lemma SamePage(a: nat, b: nat)
    requires a / 0x1000 == b / 0x1000
    ensures PathOf(a) == PathOf(b)
  {}

  lemma PrefixIn(root: nat, q: seq<nat>, i: nat)
    requires |q| == 4 && 1 <= i <= 4
    ensures Node(root, q[..i]) in PrefixNodes(root, q)
  {
    assert q[..4] == q;
  }

  lemma {:induction false} PathInRegion(root: nat, va: nat, count: nat, x: nat, i: nat)
    requires va / 0x1000 <= x / 0x1000 < va / 0x1000 + count && 1 <= i <= 4
    ensures Node(root, PathOf(x)[..i]) in RegionNodes(root, va, count)
  {
    var last := va + (count - 1) * 0x1000;
    assert last / 0x1000 == va / 0x1000 + count - 1;
    if x / 0x1000 < last / 0x1000 {
      PathInRegion(root, va, count - 1, x, i);
    } else {
      SamePage(last, x);
      PrefixIn(root, PathOf(x), i);
    }
  }

  /** Execve has cleared every page at 8 MiB and above. */
  lemma ClearedAbove(s: System, cr3: nat, x: nat)
    requires SystemInv(s) && cr3 in s.procs && 0x80_0000 <= x < 0x8000_0000_0000 && Mapped(s.spaces, cr3, x)
    ensures Node(cr3, PathOf(x)) in ExecPages(s.procs[cr3])
  {
    var n := Node(cr3, PathOf(x));
    ExitIs(s.procs[cr3], n);
    if InRange(n, cr3, 0x200, 0x400) {
      var pn: nat :| 0x200 <= pn < 0x400 && n == PageNode(cr3, pn);
      PageNodeInjective(cr3, pn, x / 0x1000);
    }
  }

  /** Whether the table `n` on the way to a page ends up with the bit. */
  ghost predicate TableReady(a: Spaces, cr3: nat, size: nat, n: Node) {
    if n in a.nodes then UserEntry(a, n) else n !in BufferNodes(cr3, size)
  }

  /**
    The memory a process allocates after execve can be used exactly where each table on
    the way had the bit before execve, or was not there and not made for the buffer.
   */
  lemma AllocatedReachableExactlyWhen(s: System, t: System, u: System, cr3: nat, st: Stages, size: nat,
                                      programs: seq<Elf.Program>, count: nat, x: nat)
    requires SystemInv(s) && Step(s, Exec(cr3, st, size, programs), t) && Step(t, Anon(cr3, count), u)
    requires 0x80_0000 <= x < 0x80_0000 + count * 0x1000
    ensures Mapped(u.spaces, cr3, x)
    ensures Reachable(u.spaces, cr3, x) <==> forall i | 1 <= i <= 3 :: TableReady(s.spaces, cr3, size, Node(cr3, PathOf(x)[..i]))
  {
    BelowEnd(s, t, u, cr3, st, size, programs, count);
    var more := RegionNodes(cr3, 0x80_0000, count);
    forall i | 1 <= i <= 4 ensures Node(cr3, PathOf(x)[..i]) in more {
      PathInRegion(cr3, 0x80_0000, count, x, i);
    }
    if Mapped(s.spaces, cr3, x) {
      ClearedAbove(s, cr3, x);
    }
    PathReachable(s.spaces, st, t.spaces, s.procs[cr3], t.procs[cr3], size, programs, u.spaces, more, x);
  }

  lemma PathReachable(a: Spaces, st: Stages, b: Spaces, p: Proc, q: Proc, size: nat, programs: seq<Elf.Program>,
                      c: Spaces, more: set<Node>, x: nat)
    requires ExecDone(a, st, b, p, q, size, programs) && Grows(b, c, more, 7)
    requires forall i | 1 <= i <= 4 :: Node(p.cr3, PathOf(x)[..i]) in more
    requires Mapped(a, p.cr3, x) ==> Node(p.cr3, PathOf(x)) in ExecPages(p)
    ensures Mapped(c, p.cr3, x)
    ensures Reachable(c, p.cr3, x) <==> forall i | 1 <= i <= 3 :: TableReady(a, p.cr3, size, Node(p.cr3, PathOf(x)[..i]))
  {
    assert PathOf(x)[..4] == PathOf(x);
    PageReachable(a, st, b, p, q, size, programs, c, more, Node(p.cr3, PathOf(x)));
    forall i | 1 <= i <= 3
      ensures UserEntry(c, Node(p.cr3, PathOf(x)[..i])) <==> TableReady(a, p.cr3, size, Node(p.cr3, PathOf(x)[..i]))
    {
      TableReachable(a, st, b, p, q, size, programs, c, more, Node(p.cr3, PathOf(x)[..i]));
    }
  }

  lemma BelowEnd(s: System, t: System, u: System, cr3: nat, st: Stages, size: nat, programs: seq<Elf.Program>, count: nat)
    requires SystemInv(s) && Step(s, Exec(cr3, st, size, programs), t) && Step(t, Anon(cr3, count), u)
    ensures s.procs[cr3].cr3 == cr3 && 0x80_0000 + count * 0x1000 < 0x8000_0000_0000
    ensures Grows(t.spaces, u.spaces, RegionNodes(cr3, 0x80_0000, count), 7)
  {}

  lemma PageReachable(a: Spaces, st: Stages, b: Spaces, p: Proc, q: Proc, size: nat, programs: seq<Elf.Program>,
                      c: Spaces, more: set<Node>, n: Node)
    requires ExecDone(a, st, b, p, q, size, programs) && Grows(b, c, more, 7)
    requires n in more && |n.path| == 4 && (n in a.nodes ==> n in ExecPages(p))
    ensures UserEntry(c, n)
  {
    if n in b.nodes {
      PageAfterExec(a, st, b, p, q, size, programs, n);
    } else {
      NewEntry(b, c, more, 7, n);
    }
  }

  lemma TableReachable(a: Spaces, st: Stages, b: Spaces, p: Proc, q: Proc, size: nat, programs: seq<Elf.Program>,
                       c: Spaces, more: set<Node>, n: Node)
    requires ExecDone(a, st, b, p, q, size, programs) && Grows(b, c, more, 7)
    requires n in more && |n.path| != 4
    ensures UserEntry(c, n) <==> TableReady(a, p.cr3, size, n)
  {
    TableAfterExec(a, st, b, p, q, size, programs, n);
    if n !in b.nodes {
      NewEntry(b, c, more, 7, n);
    }
  }

  /** In the buffer's own pages: exactly when all three tables were there before, with the bit. */
  lemma BufferPagesReachableExactlyWhen(s: System, t: System, u: System, cr3: nat, st: Stages, size: nat,
                                        programs: seq<Elf.Program>, count: nat, x: nat)
    requires SystemInv(s) && Step(s, Exec(cr3, st, size, programs), t) && Step(t, Anon(cr3, count), u)
    requires 0x80_0000 <= x < 0x80_0000 + count * 0x1000 && x < 0x80_0000 + size
    ensures Reachable(u.spaces, cr3, x) <==> forall i | 1 <= i <= 3 :: UserEntry(s.spaces, Node(cr3, PathOf(x)[..i]))
  {
    AllocatedReachableExactlyWhen(s, t, u, cr3, st, size, programs, count, x);
    forall i | 1 <= i <= 3 ensures Node(cr3, PathOf(x)[..i]) in BufferNodes(cr3, size) {
      assert RoundDown(0x80_0000) == 0x80_0000;
      PathInRegion(cr3, 0x80_0000, Turns(0x80_0000, 0x80_0000 + size), x, i);
    }
  }

  // -- the first process, if it starts a program before it allocates ---------------

  lemma ThirdIndex(a: nat)
    requires a < 0x100_0000
    ensures PathOf(a)[..3][2] == a / 0x20_0000
  {
    assert a / 0x1000 / 512 == a / 0x20_0000;
  }

  lemma SameTable(a: nat, b: nat)
    requires a < 0x100_0000 && b < 0x100_0000 && PathOf(a)[..3] == PathOf(b)[..3]
    ensures a / 0x20_0000 == b / 0x20_0000
  {
    ThirdIndex(a);
    ThirdIndex(b);
  }

  lemma {:induction false} TableOf(root: nat, va: nat, count: nat, x: nat)
    requires va + count * 0x1000 <= 0x100_0000 && Node(root, PathOf(x)[..3]) in RegionNodes(root, va, count)
    requires x < 0x100_0000
    ensures exists j: nat :: j < count && (va + j * 0x1000) / 0x20_0000 == x / 0x20_0000
  {
    if Node(root, PathOf(x)[..3]) in RegionNodes(root, va, count - 1) {
      TableOf(root, va, count - 1, x);
    } else {
      SameTable(va + (count - 1) * 0x1000, x);
    }
  }

  /** Neither the stack nor a program below 8 MiB brings the table that the anonymous memory starts in. */
  lemma {:induction false} NotOfPrograms(cr3: nat, programs: seq<Elf.Program>)
    requires BetweenStackAndHeap(programs)
    ensures Node(cr3, PathOf(0x80_0000)[..3]) !in Elf.AllNodes(cr3, programs)
  {
    if programs != [] {
      var p := programs[|programs| - 1];
      NotOfPrograms(cr3, programs[..|programs| - 1]);
      assert p in programs;
      if Elf.Loadable(p) && Node(cr3, PathOf(0x80_0000)[..3]) in RegionNodes(cr3, p.vaddr, Elf.PageCount(p)) {
        TableOf(cr3, p.vaddr, Elf.PageCount(p), 0x80_0000);
        assert false;
      }
    }
  }

  lemma NotOfStack(cr3: nat)
    ensures Node(cr3, PathOf(0x80_0000)[..3]) !in RegionNodes(cr3, 0x20_0000, Turns(0x20_0000, 0x40_0000))
  {
    var count := Turns(0x20_0000, 0x40_0000);
    assert count == 0x200;
    if Node(cr3, PathOf(0x80_0000)[..3]) in RegionNodes(cr3, 0x20_0000, count) {
      TableOf(cr3, 0x20_0000, count, 0x80_0000);
      assert false;
    }
  }

  /**
    So if the first process starts another program before it has allocated anything,
    the first page that program allocates is mapped and cannot be used.
   */
  lemma FirstProgramLosesMemory(a: Spaces, half: Spaces, b: Spaces, cr3: nat, programs: seq<Elf.Program>, t: System, u: System,
                                st: Stages, size: nat, later: seq<Elf.Program>, count: nat)
    requires SpacesInv(a) && a.nodes == map[] && cr3 in a.upper && BetweenStackAndHeap(programs)
    requires Grows(a, half, RegionNodes(cr3, 0x20_0000, Turns(0x20_0000, 0x40_0000)), 7)
    requires Grows(half, b, Elf.AllNodes(cr3, programs), 7)
    requires Step(System(b, map[cr3 := Proc(cr3, Elf.Highest(programs), 0x80_0000)]), Exec(cr3, st, size, later), t)
    requires Step(t, Anon(cr3, count), u) && size > 0 && count > 0
    ensures Mapped(u.spaces, cr3, 0x80_0000) && !Reachable(u.spaces, cr3, 0x80_0000)
  {
    var s := System(b, map[cr3 := Proc(cr3, Elf.Highest(programs), 0x80_0000)]);
    Placed(programs, 0);
    InitialSystem(a, half, b, cr3, programs);
    NotOfStack(cr3);
    NotOfPrograms(cr3, programs);
    AllocatedReachableExactlyWhen(s, t, u, cr3, st, size, later, count, 0x80_0000);
    BufferPagesReachableExactlyWhen(s, t, u, cr3, st, size, later, count, 0x80_0000);
    assert !UserEntry(s.spaces, Node(cr3, PathOf(0x80_0000)[..3]));
  }
}
