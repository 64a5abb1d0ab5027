/**
  The pages a process is granted when it allocates anonymous memory: what they hold,
  and whether they were free.
 */
module Granting {

  import opened Bytes
  import opened PageTables
  import opened Spaces
  import opened Lifetimes
  import opened Executing
  import Access
  import Elf
  import Forking

  // -- what a new page holds ----------------------------------------------------

  /** The frame of `x` was a page of process `c` in the state before. */
  ghost predicate WasPageOf(a: Spaces, c: nat, frame: nat) {
    exists y: nat | y < 0x8000_0000_0000 :: Mapped(a, c, y) && FrameAt(a, c, y) == frame
  }

  lemma PageAddress(root: nat, pn: nat)
    ensures PageNode(root, pn) == Node(root, PathOf(pn * 0x1000))
  {
    assert pn * 0x1000 / 0x1000 == pn;
  }

  /** A node that exit drops is a page of the exiting process. */
  lemma DroppedIsPage(p: Proc, n: Node)
    requires GoodProc(p) && n in ExitPages(p)
    ensures exists y: nat :: y < 0x8000_0000_0000 && n == Node(p.cr3, PathOf(y))
  {
    ExitIs(p, n);
    var pn: nat :| pn < 0x7fff_ffff8 && n == PageNode(p.cr3, pn);
    PageAddress(p.cr3, pn);
  }

  /** Exactly the frames that were pages of the exiting process change from in use to free. */
  lemma FreedByExit(s: System, c: nat, t: System, frame: nat)
    requires SystemInv(s) && Step(s, Exit(c), t) && frame !in t.spaces.used
    ensures frame in s.spaces.used <==> WasPageOf(s.spaces, c, frame)
  {
    var a, p := s.spaces, s.procs[c];
    if frame in a.used {
      assert frame !in a.reserved && Owned(a.nodes, frame);
      var n :| n in a.nodes && FrameOf(a.nodes[n]) == frame;
      assert n !in t.spaces.nodes;
      DroppedIsPage(p, n);
      var y: nat :| y < 0x8000_0000_0000 && n == Node(p.cr3, PathOf(y));
      assert Mapped(a, c, y) && FrameAt(a, c, y) == frame;
    }
    if WasPageOf(a, c, frame) {
      var y: nat :| y < 0x8000_0000_0000 && Mapped(a, c, y) && FrameAt(a, c, y) == frame;
      MappedFrameInUse(a, c, y);
    }
  }

  /**
    Tables are cleared when they are made, and pages are not.  The frame of a page
    allocated after an exit was in use before exactly when it was a page of the exiting
    process; and then the new page holds, byte for byte, what that page held.
   */
  lemma LeftoversExactlyWhen(s: System, t: System, u: System, bytes: Contents, c: nat, d: nat, count: nat, x: nat)
    requires SystemInv(s) && Backed(s.spaces, bytes) && Step(s, Exit(c), t) && Step(t, Anon(d, count), u)
    requires x < 0x8000_0000_0000 && Mapped(u.spaces, d, x) && !Mapped(t.spaces, d, x)
    ensures Backed(u.spaces, bytes)
    ensures var frame := FrameAt(u.spaces, d, x);
      frame in s.spaces.used <==> WasPageOf(s.spaces, c, frame)
    ensures FrameAt(u.spaces, d, x) in s.spaces.used ==>
      exists y: nat | y < 0x8000_0000_0000 ::
        Mapped(s.spaces, c, y) && PageAt(u.spaces, bytes, d, x) == PageAt(s.spaces, bytes, c, y)
  {
    var frame := FrameAt(u.spaces, d, x);
    StillBacked(s.spaces, u.spaces, bytes);
    FreedByExit(s, c, t, frame);
    if frame in s.spaces.used {
      var y: nat :| y < 0x8000_0000_0000 && Mapped(s.spaces, c, y) && FrameAt(s.spaces, c, y) == frame;
      assert PageAt(u.spaces, bytes, d, x) == PageAt(s.spaces, bytes, c, y);
    }
  }

  /** So when memory was full, whatever is allocated after an exit shows what the exited process left. */
  lemma LeftoversShow(s: System, t: System, u: System, bytes: Contents, c: nat, d: nat, count: nat, x: nat)
    requires SystemInv(s) && Backed(s.spaces, bytes) && s.spaces.used == s.spaces.managed
    requires Step(s, Exit(c), t) && Step(t, Anon(d, count), u)
    requires x < 0x8000_0000_0000 && Mapped(u.spaces, d, x) && !Mapped(t.spaces, d, x)
    ensures Backed(u.spaces, bytes)
    ensures exists y: nat | y < 0x8000_0000_0000 ::
      Mapped(s.spaces, c, y) && PageAt(u.spaces, bytes, d, x) == PageAt(s.spaces, bytes, c, y)
  {
    MappedFrameInUse(u.spaces, d, x);
    LeftoversExactlyWhen(s, t, u, bytes, c, d, count, x);
  }

  // -- whether the pages were free ------------------------------------------------

  /** Some segment has the page of `x`. */
  ghost predicate ProgramPage(programs: seq<Elf.Program>, x: nat) {
    exists p | p in programs :: Elf.Loadable(p) && InPages(p.vaddr, Elf.PageCount(p), x)
  }

  lemma {:induction false} ProgramPageIs(cr3: nat, programs: seq<Elf.Program>, x: nat)
    requires PlacedPrograms(programs) && x < 0x8000_0000_0000
    ensures Node(cr3, PathOf(x)) in Elf.AllNodes(cr3, programs) <==> ProgramPage(programs, x)
  {
    if programs != [] {
      var front, p := programs[..|programs| - 1], programs[|programs| - 1];
      assert programs == front + [p];
      ProgramPageIs(cr3, front, x);
      if Elf.Loadable(p) {
        PagesAreNodes(cr3, p.vaddr, Elf.PageCount(p));
        InRegion(cr3, p.vaddr, Elf.PageCount(p), x);
      }
    }
  }

  /** Above 8 MiB execve leaves the new program's pages, but for those that were the buffer's. */
  lemma MappedAfterExec(s: System, t: System, cr3: nat, st: Stages, size: nat, programs: seq<Elf.Program>, x: nat)
    requires SystemInv(s) && Step(s, Exec(cr3, st, size, programs), t)
    requires 0x80_0000 <= x < 0x8000_0000_0000 && 0x80_0000 + size <= 0x8000_0000_0000
    ensures Mapped(t.spaces, cr3, x) <==> ProgramPage(programs, x) && !InBufferPages(size, x)
  {
    var n := Node(cr3, PathOf(x));
    ProgramPageIs(cr3, programs, x);
    BufferPageOf(cr3, size, cr3, x);
    if Mapped(t.spaces, cr3, x) {
      ExecLeaves(s.spaces, st, t.spaces, s.procs[cr3], t.procs[cr3], size, programs, n);
      if Mapped(s.spaces, cr3, x) {
        Access.ClearedAbove(s, cr3, x);
      }
    }
  }

  /** The segment has no page behind the buffer among the first `count` from 8 MiB on. */
  predicate OutOfTheWay(p: Elf.Program, size: nat, count: nat) {
    var from, to := PageEnd(0x80_0000 + size), 0x800 + count;
    Elf.PageCount(p) == 0 || to <= from || p.vaddr / 0x1000 + Elf.PageCount(p) <= from || to <= p.vaddr / 0x1000
  }

  /** Otherwise some address is in a page of the segment, behind the buffer and among those pages. */
  ghost function InTheWay(p: Elf.Program, size: nat, count: nat): (x: nat)
    requires !OutOfTheWay(p, size, count)
    ensures 0x80_0000 <= x < 0x80_0000 + count * 0x1000
    ensures InPages(p.vaddr, Elf.PageCount(p), x) && !InBufferPages(size, x)
  {
    var from, v := PageEnd(0x80_0000 + size), p.vaddr / 0x1000;
    var pn := if v < from then from else v;
    assert pn * 0x1000 / 0x1000 == pn;
    pn * 0x1000
  }

  /**
    After execve the anonymous memory starts at 8 MiB again, whatever the program has
    there.  The first `count` pages granted were all free exactly when every segment is
    out of their way.
   */
  lemma GrantedFreeExactlyWhen(s: System, t: System, cr3: nat, st: Stages, size: nat, programs: seq<Elf.Program>, count: nat)
    requires SystemInv(s) && Step(s, Exec(cr3, st, size, programs), t)
    requires 0x80_0000 + count * 0x1000 <= 0x8000_0000_0000 && 0x80_0000 + size <= 0x8000_0000_0000
    ensures (forall x: nat | 0x80_0000 <= x < 0x80_0000 + count * 0x1000 :: !Mapped(t.spaces, cr3, x))
      <==> forall p | p in programs && Elf.Loadable(p) :: OutOfTheWay(p, size, count)
  {
    forall p | p in programs && Elf.Loadable(p) && !OutOfTheWay(p, size, count)
      ensures exists x: nat :: 0x80_0000 <= x < 0x80_0000 + count * 0x1000 && Mapped(t.spaces, cr3, x)
    {
      var x := InTheWay(p, size, count);
      MappedAfterExec(s, t, cr3, st, size, programs, x);
    }
    if forall p | p in programs && Elf.Loadable(p) :: OutOfTheWay(p, size, count) {
      forall x: nat | 0x80_0000 <= x < 0x80_0000 + count * 0x1000 ensures !Mapped(t.spaces, cr3, x) {
        MappedAfterExec(s, t, cr3, st, size, programs, x);
      }
    }
  }

  /** A program with a byte at 10 MiB that allocates 3 MiB is granted its own page, on the frame it has. */
  lemma OccupiedExample(s: System, t: System, u: System, cr3: nat, st: Stages)
    requires SystemInv(s) && Step(s, Exec(cr3, st, 0x100, [Elf.Program(1, 0, 0xa0_0000, 1, 1)]), t)
    requires Step(t, Anon(cr3, 0x300), u)
    ensures t.procs[cr3].anonEnd <= 0xa0_0000 < u.procs[cr3].anonEnd
    ensures Mapped(t.spaces, cr3, 0xa0_0000) && Mapped(u.spaces, cr3, 0xa0_0000)
    ensures FrameAt(u.spaces, cr3, 0xa0_0000) == FrameAt(t.spaces, cr3, 0xa0_0000)
  {
    var p := Elf.Program(1, 0, 0xa0_0000, 1, 1);
    assert p in [p] && InPages(p.vaddr, Elf.PageCount(p), 0xa0_0000);
    assert PageEnd(0x80_0100) == 0x801;
    MappedAfterExec(s, t, cr3, st, 0x100, [p], 0xa0_0000);
  }
}
