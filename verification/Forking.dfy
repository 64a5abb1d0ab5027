/** What fork gives the child: its own frames, with the parent's contents. */
module Forking {

  import opened Bytes
  import opened PageTables
  import opened Spaces
  import opened Lifetimes

  /** Fork's region loops reach the page of `x`. */
  ghost predicate InForkRange(p: Proc, x: nat) {
    0x200 <= x / 0x1000 < PageEnd(p.elfEnd) || 0x800 <= x / 0x1000 < PageEnd(p.anonEnd)
  }

  lemma RangeOf(root: nat, x: nat, from: nat, to: nat)
    requires x < 0x8000_0000_0000 && to <= 0x8_0000_0000
    ensures InRange(Node(root, PathOf(x)), root, from, to) <==> from <= x / 0x1000 < to
  {
    var n := Node(root, PathOf(x));
    assert n == PageNode(root, x / 0x1000);
    if InRange(n, root, from, to) {
      var pn: nat :| from <= pn < to && n == PageNode(root, pn);
      PageNodeInjective(root, pn, x / 0x1000);
    }
  }

  /** The child has a page exactly where fork's regions lie, whatever the parent has there. */
  lemma ChildMaps(a: Spaces, b: Spaces, p: Proc, q: Proc, x: nat)
    requires ForkDone(a, b, p, q) && GoodProc(p) && x < 0x8000_0000_0000
    ensures Mapped(b, q.cr3, x) <==> InForkRange(p, x)
  {
    RootKeeps(a, p.cr3, q.cr3);
    var n := Node(q.cr3, PathOf(x));
    ForkPages(p, q.cr3, n);
    RangeOf(q.cr3, x, 0x200, PageEnd(p.elfEnd));
    RangeOf(q.cr3, x, 0x800, PageEnd(p.anonEnd));
  }

  /** Every other space translates as before, and keeps its kernel half; the child has the parent's kernel half. */
  lemma OthersUnchanged(a: Spaces, b: Spaces, p: Proc, q: Proc, root: nat, x: nat)
    requires ForkDone(a, b, p, q) && root != q.cr3
    ensures Mapped(b, root, x) <==> Mapped(a, root, x)
    ensures Mapped(a, root, x) ==> FrameAt(b, root, x) == FrameAt(a, root, x)
    ensures root in a.upper ==> root in b.upper && b.upper[root] == a.upper[root]
    ensures q.cr3 in b.upper && p.cr3 in a.upper && b.upper[q.cr3] == a.upper[p.cr3]
  {
    ForkPages(p, q.cr3, Node(root, PathOf(x)));
  }

  /** The two copy calls of fork, with the contents between them. */
  ghost predicate ForkCopied(b: Spaces, before: Contents, mid: Contents, after: Contents, p: Proc, r: nat) {
    && SpacesInv(b) && Backed(b, before) && Backed(b, mid)
    && Copied(b, before, mid, r, p.cr3, 0x20_0000, Turns(0x20_0000, 0x20_0000 + p.elfEnd))
    && Copied(b, mid, after, r, p.cr3, 0x80_0000, Turns(0x80_0000, 0x80_0000 + p.anonEnd))
  }

  /** The length handed to the copy is the end of the range, so that more than the range is copied, never less. */
  lemma CopyReaches(p: Proc, x: nat)
    requires InForkRange(p, x)
    ensures || InPages(0x20_0000, Turns(0x20_0000, 0x20_0000 + p.elfEnd), x)
            || InPages(0x80_0000, Turns(0x80_0000, 0x80_0000 + p.anonEnd), x)
  {}

  /** After both copies, a page the child shares with its parent holds what the parent's page holds. */
  lemma BothCopies(b: Spaces, before: Contents, mid: Contents, after: Contents, p: Proc, r: nat, x: nat)
    requires ForkCopied(b, before, mid, after, p, r) && r != p.cr3 && x < 0x8000_0000_0000
    ensures Backed(b, after)
    ensures Mapped(b, r, x) && Mapped(b, p.cr3, x) && InForkRange(p, x) ==>
      PageAt(b, after, r, x) == PageAt(b, before, p.cr3, x)
  {
    if Mapped(b, r, x) && Mapped(b, p.cr3, x) && InForkRange(p, x) {
      CopyReaches(p, x);
      assert PageAt(b, mid, p.cr3, x) == PageAt(b, before, p.cr3, x);
    }
  }

  lemma CopiesSpare(b: Spaces, before: Contents, mid: Contents, after: Contents, p: Proc, r: nat, root: nat, x: nat)
    requires ForkCopied(b, before, mid, after, p, r) && root != r && x < 0x8000_0000_0000
    ensures Backed(b, after)
    ensures Mapped(b, root, x) ==> PageAt(b, after, root, x) == PageAt(b, before, root, x)
  {
    if Mapped(b, root, x) {
      assert PageAt(b, mid, root, x) == PageAt(b, before, root, x);
    }
  }

  lemma SamePage(a: Spaces, b: Spaces, bytes: Contents, root: nat, x: nat)
    requires SpacesInv(a) && SpacesInv(b) && Backed(a, bytes) && Backed(b, bytes)
    requires Mapped(a, root, x) && Mapped(b, root, x) && FrameAt(a, root, x) == FrameAt(b, root, x)
    ensures PageAt(a, bytes, root, x) == PageAt(b, bytes, root, x)
  {}

  /**
    Fork isolation.  Each page of the parent inside fork's regions is mapped in the
    child, on a frame of its own, with the parent's contents; no page of the parent
    or of any other space changed.
   */
  lemma ForkIsolates(a: Spaces, b: Spaces, before: Contents, mid: Contents, after: Contents, p: Proc, q: Proc, x: nat)
    requires SpacesInv(a) && Backed(a, before) && ForkDone(a, b, p, q) && GoodProc(p)
    requires ForkCopied(b, before, mid, after, p, q.cr3) && x < 0x8000_0000_0000
    ensures Backed(b, after)
    ensures Mapped(a, p.cr3, x) && InForkRange(p, x) ==>
      && Mapped(b, q.cr3, x) && Mapped(b, p.cr3, x) && FrameAt(b, q.cr3, x) != FrameAt(b, p.cr3, x)
      && PageAt(b, after, q.cr3, x) == PageAt(a, before, p.cr3, x)
    ensures forall root: nat | root != q.cr3 && Mapped(a, root, x) ::
      Mapped(b, root, x) && PageAt(b, after, root, x) == PageAt(a, before, root, x)
  {
    RootKeeps(a, p.cr3, q.cr3);
    ChildMaps(a, b, p, q, x);
    BothCopies(b, before, mid, after, p, q.cr3, x);
    forall root: nat | root != q.cr3 && Mapped(a, root, x)
      ensures Mapped(b, root, x) && PageAt(b, after, root, x) == PageAt(a, before, root, x)
    {
      OthersUnchanged(a, b, p, q, root, x);
      CopiesSpare(b, before, mid, after, p, q.cr3, root, x);
      SamePage(a, b, before, root, x);
    }
    if Mapped(a, p.cr3, x) && InForkRange(p, x) {
      OthersUnchanged(a, b, p, q, p.cr3, x);
      SamePage(a, b, before, p.cr3, x);
      TranslationInjective(b, q.cr3, x, p.cr3, x);
    }
  }

  /** Some page of `p` between the end of its program and the end of the stack, which fork passes over. */
  ghost predicate StackAboveProgram(a: Spaces, p: Proc) {
    exists x: nat :: Mapped(a, p.cr3, x) && x < 0x8000_0000_0000 && PageEnd(p.elfEnd) <= x / 0x1000 < 0x400
  }

  /**
    The child gets every page of its parent exactly when the parent has no page
    between the end of its program and 4 MiB.  So it does whenever the program ends at
    4 MiB or above; a process whose program ends below loses stack pages on fork.
   */
  lemma ForkCarriesAllExactlyWhen(s: System, cr3: nat, child: nat, t: System)
    requires SystemInv(s) && Step(s, Fork(cr3, child), t)
    ensures (forall x: nat | x < 0x8000_0000_0000 && Mapped(s.spaces, cr3, x) :: Mapped(t.spaces, child, x))
      <==> !StackAboveProgram(s.spaces, s.procs[cr3])
    ensures s.procs[cr3].elfEnd >= 0x40_0000 ==> !StackAboveProgram(s.spaces, s.procs[cr3])
  {
    var p, q := s.procs[cr3], t.procs[child];
    forall x: nat | x < 0x8000_0000_0000 && Mapped(s.spaces, cr3, x)
      ensures Mapped(t.spaces, child, x) <==> !(PageEnd(p.elfEnd) <= x / 0x1000 < 0x400)
    {
      ChildMaps(s.spaces, t.spaces, p, q, x);
      PageInExit(s, cr3, x);
    }
  }

  /** A program that ends at 3 MiB is started with a stack up to 4 MiB, and its child lacks the last page of that. */
  lemma StackLostExample(a: Spaces, b: Spaces, q: Proc)
    requires ForkDone(a, b, Proc(0x1000, 0x30_0000, 0x80_0000), q) && Mapped(a, 0x1000, 0x3f_f000)
    ensures Mapped(b, 0x1000, 0x3f_f000) && !Mapped(b, q.cr3, 0x3f_f000)
  {
    var p := Proc(0x1000, 0x30_0000, 0x80_0000);
    RootKeeps(a, p.cr3, q.cr3);
    ChildMaps(a, b, p, q, 0x3f_f000);
    OthersUnchanged(a, b, p, q, 0x1000, 0x3f_f000);
  }

  lemma PageInExit(s: System, cr3: nat, x: nat)
    requires SystemInv(s) && cr3 in s.procs && x < 0x8000_0000_0000 && Mapped(s.spaces, cr3, x)
    ensures InForkRange(s.procs[cr3], x) || 0x200 <= x / 0x1000 < 0x400
  {
    var p := s.procs[cr3];
    assert InExit(p, Node(cr3, PathOf(x)));
    RangeOf(cr3, x, 0x200, 0x400);
    RangeOf(cr3, x, 0x400, PageEnd(p.elfEnd));
    RangeOf(cr3, x, 0x800, PageEnd(p.anonEnd));
  }
}
