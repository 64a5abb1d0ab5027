/** The memory effects of anonymous allocation, exit, fork and execve, on a process struct and the memory. */
module Syscalls {

  import opened Bytes
  import opened Integers
  import opened PageTables
  import opened Spaces
  import opened Lifetimes
  import opened Processes
  import opened Seal
  import Elf
  import opened Executing
  import Forking
  import M = Memory

  /** The fields of a process that say what memory it has. */
  ghost function View(p: Process): Proc
    reads p
  {
    Proc(p.cr3, p.elfEnd, p.anonEnd)
  }

  // -- anonymous memory -------------------------------------------------------

  /** `int pages = (size + 0xfff) >> 12`: a 64-bit sum, kept in a signed 32-bit integer. */
  function PagesFor(size: nat): int {
    Int32((size + 0xfff) % 0x1_0000_0000_0000_0000 / 0x1000)
  }

  /** The pages granted hold the bytes asked for exactly when the count fits a signed 32-bit integer. */
  lemma PagesCoverExactlyWhen(size: nat)
    requires size < 0x1_0000_0000_0000_0000
    ensures size <= PagesFor(size) * 0x1000 <==> size <= 0x7fff_ffff * 0x1000
    ensures size <= 0x7fff_ffff * 0x1000 ==> PagesFor(size) * 0x1000 < size + 0x1000
  {
    if size <= 0x7fff_ffff * 0x1000 {
      assert PagesFor(size) == (size + 0xfff) / 0x1000;
    }
  }

  /** A request for 8 TiB is granted no page at all. */
  lemma NoPagesExample()
    ensures PagesFor(0x800_0000_0000) < 0
  {
    assert (0x800_0000_0000 + 0xfff) / 0x1000 == 0x8000_0000;
  }

  /** Moves the end of the anonymous memory by a page. */
  method Advance(mem: M.Memory, proc: Process)
    requires mem.Valid() && proc !in mem.ba.Repr
    modifies proc`anonEnd
    ensures mem.Valid() && proc.anonEnd == old(proc.anonEnd) + 0x1000
  {
    mem.Open();
    proc.anonEnd := proc.anonEnd + 0x1000;
    mem.AllocatorUntouched();
  }

  /** The growth so far, kept out of the loop that only passes it on. */
  ghost predicate GrowsSoFar(a: Spaces, b: Spaces, cr3: nat, first: nat, k: nat) {
    b.upper == a.upper && (Sealed(k) ==> Grows(a, b, RegionNodes(cr3, first, k), 7))
  }

  ghost predicate AnonSoFar(a: Spaces, b: Spaces, p: Proc, q: Proc, k: nat) {
    q == p.(anonEnd := p.anonEnd + k * 0x1000) && GrowsSoFar(a, b, p.cr3, p.anonEnd, k)
  }

  method MapNext(mem: M.Memory, ghost before: Spaces, ghost first: nat, ghost k: nat, cr3: nat, va: nat) returns (halted: bool)
    requires mem.Valid() && SpacesInv(before) && cr3 in mem.a.upper && va == first + k * 0x1000 < 0x8000_0000_0000
    requires GrowsSoFar(before, mem.a, cr3, first, k)
    modifies mem`words, mem`a, mem.ba.Repr
    ensures mem.Valid()
    ensures if halted then mem.OutOfFrames() else GrowsSoFar(before, mem.a, cr3, first, k + 1)
  {
    AlwaysSealed(k);
    ghost var more := {};
    halted, more := mem.AllocateNext(before, first, k, cr3, va, 7);
  }

  /** Turn `k` of the loop of `anon_allocate_syscall`: one page more, and the end moves along. */
  method AnonNext(mem: M.Memory, proc: Process, ghost before: Spaces, ghost p: Proc, ghost k: nat) returns (halted: bool)
    requires mem.Valid() && proc !in mem.ba.Repr && SpacesInv(before) && p.cr3 in before.upper
    requires AnonSoFar(before, mem.a, p, View(proc), k) && proc.anonEnd < 0x8000_0000_0000
    modifies mem`words, mem`a, mem.ba.Repr, proc`anonEnd
    ensures mem.Valid()
    ensures if halted then mem.OutOfFrames() else AnonSoFar(before, mem.a, p, View(proc), k + 1)
  {
    halted := MapNext(mem, before, p.anonEnd, k, proc.cr3, proc.anonEnd);
    if halted { return; }
    Advance(mem, proc);
  }

  lemma AnonNothing(a: Spaces, p: Proc)
    requires SpacesInv(a)
    ensures AnonSoFar(a, a, p, p, 0)
  {
    GrowsNothing(a, 7);
  }

  lemma AnonComplete(a: Spaces, b: Spaces, p: Proc, q: Proc, k: nat)
    requires AnonSoFar(a, b, p, q, k) && GoodProc(p) && p.anonEnd + k * 0x1000 <= 0x7fff_ff80_0000
    ensures AnonDone(a, b, p, q, k) && GoodProc(q)
  {
    AlwaysSealed(k);
    GoodAfter(p, k);
  }

  lemma GoodAfter(p: Proc, k: nat)
    requires GoodProc(p) && p.anonEnd + k * 0x1000 <= 0x7fff_ff80_0000
    ensures GoodProc(p.(anonEnd := p.anonEnd + k * 0x1000))
  {}

  /** The loop of `anon_allocate_syscall`. */
  method MapAnon(mem: M.Memory, proc: Process, pages: nat) returns (halted: bool)
    requires mem.Valid() && proc !in mem.ba.Repr && proc.cr3 in mem.a.upper
    requires proc.anonEnd + pages * 0x1000 <= 0x7fff_ff80_0000
    modifies mem`words, mem`a, mem.ba.Repr, proc`anonEnd
    ensures mem.Valid()
    ensures if halted then mem.OutOfFrames() else AnonSoFar(old(mem.a), mem.a, old(View(proc)), View(proc), pages)
  {
    ghost var before, p := mem.a, View(proc);
    AnonNothing(before, p);
    halted := false;
    var i := 0;
    while i < pages
      invariant 0 <= i <= pages && mem.Valid()
      invariant AnonSoFar(before, mem.a, p, View(proc), i)
    {
      halted := AnonNext(mem, proc, before, p, i);
      if halted { return; }
      i := i + 1;
    }
  }

  /** Pages actually asked for: a negative count asks for none. */
  function PagesAsked(size: nat): nat {
    if PagesFor(size) > 0 then PagesFor(size) else 0
  }

  /** What that comes to, also where the 64-bit sum or the 32-bit count wraps. */
  lemma AskedIs(size: nat)
    ensures var n := (size + 0xfff) % 0x1_0000_0000_0000_0000 / 0x1000 % 0x1_0000_0000;
      PagesAsked(size) == if n < 0x8000_0000 then n else 0
    ensures size <= 0x7fff_ffff * 0x1000 ==> PagesAsked(size) == (size + 0xfff) / 0x1000
  {
    var q := (size + 0xfff) % 0x1_0000_0000_0000_0000 / 0x1000;
    var n := q % 0x1_0000_0000;
    assert Int32(q) == if n < 0x8000_0000 then n else n - 0x1_0000_0000;
  }

  /** The bytes from the old end of the anonymous memory on are there. */
  lemma AskedMapped(a: Spaces, b: Spaces, p: Proc, q: Proc, size: nat)
    requires GoodProc(p) && AnonDone(a, b, p, q, PagesAsked(size)) && GoodProc(q)
    requires size <= 0x7fff_ffff * 0x1000
    ensures AllMapped(b, p.cr3, p.anonEnd, p.anonEnd + size)
  {
    AskedIs(size);
    RegionMapped(a, b, p.cr3, p.anonEnd, PagesAsked(size), size, 7);
  }

  lemma RegionMapped(a: Spaces, b: Spaces, cr3: nat, start: nat, count: nat, size: nat, flags: nat)
    requires Grows(a, b, RegionNodes(cr3, start, count), flags) && start % 0x1000 == 0
    requires size <= count * 0x1000 && start + count * 0x1000 <= 0x8000_0000_0000
    ensures AllMapped(b, cr3, start, start + size)
  {
    PagesAreNodes(cr3, start, count);
    forall x: nat | start <= x < start + size ensures Mapped(b, cr3, x) {
      InRegion(cr3, start, count, x);
    }
  }

  /** `anon_allocate_syscall`: returns where the new memory starts. */
  method AnonAllocate(mem: M.Memory, proc: Process, size: nat) returns (halted: bool, start: nat)
    requires mem.Valid() && proc !in mem.ba.Repr && proc.cr3 in mem.a.upper && GoodProc(View(proc))
    requires proc.anonEnd + PagesAsked(size) * 0x1000 <= 0x7fff_ff80_0000
    modifies mem`words, mem`a, mem.ba.Repr, proc`anonEnd
    ensures mem.Valid() && start == old(proc.anonEnd)
    ensures halted ==> mem.OutOfFrames()
    ensures !halted ==>
      GoodProc(View(proc)) && AnonDone(old(mem.a), mem.a, old(View(proc)), View(proc), PagesAsked(size))
    ensures !halted && size <= 0x7fff_ffff * 0x1000 ==>
      && AllMapped(mem.a, proc.cr3, start, start + size)
      && proc.anonEnd == start + (size + 0xfff) / 0x1000 * 0x1000
    ensures var n := (size + 0xfff) % 0x1_0000_0000_0000_0000 / 0x1000 % 0x1_0000_0000;
      !halted ==> proc.anonEnd == start + (if n < 0x8000_0000 then n * 0x1000 else 0)
  {
    ghost var before, p := mem.a, View(proc);
    start := proc.anonEnd;
    halted := MapAnon(mem, proc, PagesAsked(size));
    AskedIs(size);
    if !halted {
      AnonComplete(before, mem.a, p, View(proc), PagesAsked(size));
      if size <= 0x7fff_ffff * 0x1000 {
        AskedMapped(before, mem.a, p, View(proc), size);
      }
    }
  }

  // -- exit -------------------------------------------------------------------

  /** `exit_syscall`: frees the stack, the program and the anonymous memory. */
  method Exit(mem: M.Memory, proc: Process)
    requires mem.Valid() && proc.cr3 in mem.a.upper && GoodProc(View(proc)) && proc !in mem.ba.Repr
    modifies mem`words, mem`a, mem.ba.Repr
    ensures mem.Valid() && ExitDone(old(mem.a), mem.a, old(View(proc)))
  {
    ghost var a0 := mem.a;
    mem.FreeRegion(proc.cr3, 0x20_0000, 0x40_0000);
    ghost var a1 := mem.a;
    mem.FreeRegion(proc.cr3, 0x40_0000, proc.elfEnd);
    ghost var a2 := mem.a;
    mem.FreeRegion(proc.cr3, 0x80_0000, proc.anonEnd);
    FreedThrice(a0, a1, a2, mem.a, View(proc));
  }

  lemma FreedThrice(a0: Spaces, a1: Spaces, a2: Spaces, a3: Spaces, p: Proc)
    requires SpacesInv(a0) && Shrinks(a0, a1, RegionPages(p.cr3, 0x20_0000, Turns(0x20_0000, 0x40_0000)))
    requires Shrinks(a1, a2, RegionPages(p.cr3, 0x40_0000, Turns(0x40_0000, p.elfEnd)))
    requires Shrinks(a2, a3, RegionPages(p.cr3, 0x80_0000, Turns(0x80_0000, p.anonEnd)))
    ensures ExitDone(a0, a3, p)
  {
    ShrinksTwice(a0, a1, a2, RegionPages(p.cr3, 0x20_0000, Turns(0x20_0000, 0x40_0000)),
                 RegionPages(p.cr3, 0x40_0000, Turns(0x40_0000, p.elfEnd)));
    ShrinksTwice(a0, a2, a3,
                 RegionPages(p.cr3, 0x20_0000, Turns(0x20_0000, 0x40_0000))
                 + RegionPages(p.cr3, 0x40_0000, Turns(0x40_0000, p.elfEnd)),
                 RegionPages(p.cr3, 0x80_0000, Turns(0x80_0000, p.anonEnd)));
  }

  // -- fork -------------------------------------------------------------------

  /** The first half of `fork_syscall`: a new space with the parent's kernel half and regions. */
  method NewSpace(mem: M.Memory, proc: Process) returns (halted: bool, newCr3: nat)
    requires mem.Valid() && proc.cr3 in mem.a.upper && GoodProc(View(proc)) && !mem.OutOfFrames() && proc !in mem.ba.Repr
    modifies mem`words, mem`a, mem.ba.Repr
    ensures mem.Valid()
    ensures halted ==> mem.OutOfFrames()
    ensures !halted ==> ForkDone(old(mem.a), mem.a, View(proc), View(proc).(cr3 := newCr3))
  {
    ghost var a, more1, more2 := mem.a, {}, {};
    newCr3 := mem.NewRoot(proc.cr3);
    ghost var rooted := mem.a;
    halted, more1 := mem.AllocateRegion(newCr3, 0x20_0000, proc.elfEnd, 7);
    if halted { return; }
    ghost var half := mem.a;
    halted, more2 := mem.AllocateRegion(newCr3, 0x80_0000, proc.anonEnd, 7);
    if halted { return; }
    GrowsTwice(rooted, half, mem.a, more1, more2, 7);
  }

  /** One copy call, kept out of proofs that only pass it on. */
  ghost predicate CopiedRange(a: Spaces, before: Contents, after: Contents, dst: nat, src: nat, start: nat, len: nat) {
    Sealed(len) ==>
      SpacesInv(a) && Backed(a, before) && Copied(a, before, after, dst, src, start, Turns(start, start + len))
  }

  /** How many pages of a range are mapped on both sides. */
  ghost function SharedCount(a: Spaces, dst: nat, src: nat, start: nat, len: nat): nat {
    |SharedPages(a, dst, src, start, Turns(start, start + len))|
  }

  method CopyRange(mem: M.Memory, dst: nat, src: nat, start: nat, len: nat) returns (copied: nat)
    requires mem.Valid() && dst in mem.a.upper && src in mem.a.upper && start + len <= 0x8000_0000_0000
    modifies mem`bytes
    ensures mem.Valid() && CopiedRange(mem.a, old(mem.bytes), mem.bytes, dst, src, start, len)
    ensures copied == SharedCount(mem.a, dst, src, start, len)
  {
    copied := mem.CopyPages(dst, src, start, len);
  }

  lemma BothRanges(a: Spaces, before: Contents, mid: Contents, after: Contents, p: Proc, r: nat)
    requires CopiedRange(a, before, mid, r, p.cr3, 0x20_0000, p.elfEnd)
    requires CopiedRange(a, mid, after, r, p.cr3, 0x80_0000, p.anonEnd)
    ensures Forking.ForkCopied(a, before, mid, after, p, r)
  {
    AlwaysSealed(p.elfEnd);
    AlwaysSealed(p.anonEnd);
  }

  /** The second half: the contents, in the parent's context. */
  method CopySpace(mem: M.Memory, proc: Process, newCr3: nat) returns (ghost mid: Contents, low: nat, high: nat)
    requires mem.Valid() && proc.cr3 in mem.a.upper && newCr3 in mem.a.upper && GoodProc(View(proc))
    modifies mem`bytes
    ensures mem.Valid() && Forking.ForkCopied(mem.a, old(mem.bytes), mid, mem.bytes, View(proc), newCr3)
    ensures low == SharedCount(mem.a, newCr3, proc.cr3, 0x20_0000, proc.elfEnd)
    ensures high == SharedCount(mem.a, newCr3, proc.cr3, 0x80_0000, proc.anonEnd)
  {
    ghost var before := mem.bytes;
    low := CopyRange(mem, newCr3, proc.cr3, 0x20_0000, proc.elfEnd);
    mid := mem.bytes;
    high := CopyRange(mem, newCr3, proc.cr3, 0x80_0000, proc.anonEnd);
    BothRanges(mem.a, before, mid, mem.bytes, View(proc), newCr3);
  }

  /** The child's struct: a copy, `next` included, with its own root and saved registers. */
  method CopyStruct(proc: Process, newCr3: nat, context: nat) returns (child: Process)
    ensures fresh(child) && View(child) == View(proc).(cr3 := newCr3) && child.context == context
    ensures child.status == proc.status && child.next == proc.next && child.waitNext == proc.waitNext
  {
    child := new Process(newCr3, proc.elfEnd, proc.anonEnd);
    child.status, child.next, child.waitNext, child.context := proc.status, proc.next, proc.waitNext, context;
  }

  /**
    `fork_syscall`, from the parent's side up to `insert_process`, for which see
    `Scheduling.InsertForked`.  `context` is where the child's registers are saved.
   */
  method Fork(mem: M.Memory, proc: Process, context: nat) returns (halted: bool, child: Process?, ghost mid: Contents)
    requires mem.Valid() && proc.cr3 in mem.a.upper && GoodProc(View(proc)) && !mem.OutOfFrames() && proc !in mem.ba.Repr
    modifies mem`words, mem`a, mem`bytes, mem.ba.Repr
    ensures halted ==> mem.OutOfFrames()
    ensures !halted ==>
      && mem.Valid() && child != null && fresh(child) && child.context == context
      && child.status == proc.status && child.next == proc.next && child.waitNext == proc.waitNext
      && ForkDone(old(mem.a), mem.a, View(proc), View(child))
      && Forking.ForkCopied(mem.a, old(mem.bytes), mid, mem.bytes, View(proc), View(child).cr3)
  {
    var newCr3, low, high;
    child, mid := null, map[];
    halted, newCr3 := NewSpace(mem, proc);
    if halted { return; }
    mid, low, high := CopySpace(mem, proc, newCr3);
    child := CopyStruct(proc, newCr3, context);
  }

  // -- execve -----------------------------------------------------------------

  /** What opening the path gives: nothing, or a file. */
  datatype File = NoFile | File(image: seq<byte>)

  /** Outcomes of `execve_syscall`: -1, the machine stopping, or the new program running. */
  datatype Execed = Refused | ExecHalted | Started

  /** Execve's writes to the process struct. */
  method SetEnds(mem: M.Memory, proc: Process, elfEnd: nat, anonEnd: nat)
    requires mem.Valid() && proc !in mem.ba.Repr
    modifies proc`elfEnd, proc`anonEnd
    ensures mem.Valid() && proc.elfEnd == elfEnd && proc.anonEnd == anonEnd
  {
    mem.Open();
    proc.elfEnd, proc.anonEnd := elfEnd, anonEnd;
    mem.AllocatorUntouched();
  }

  /** The old program and the anonymous memory go. */
  method ClearForExec(mem: M.Memory, proc: Process)
    requires mem.Valid() && proc.cr3 in mem.a.upper && GoodProc(View(proc)) && proc !in mem.ba.Repr
    modifies mem`words, mem`a, mem.ba.Repr
    ensures mem.Valid() && Shrinks(old(mem.a), mem.a, ExecPages(View(proc)))
  {
    ghost var a0 := mem.a;
    mem.FreeRegion(proc.cr3, 0x40_0000, proc.elfEnd);
    ghost var a1 := mem.a;
    mem.FreeRegion(proc.cr3, 0x80_0000, proc.anonEnd);
    ShrinksTwice(a0, a1, mem.a, RegionPages(proc.cr3, 0x40_0000, Turns(0x40_0000, proc.elfEnd)),
                 RegionPages(proc.cr3, 0x80_0000, Turns(0x80_0000, proc.anonEnd)));
  }

  lemma BufferMapped(a: Spaces, b: Spaces, cr3: nat, size: nat, flags: nat)
    requires 0x80_0000 + size <= 0x8000_0000_0000
    requires Grows(a, b, BufferNodes(cr3, size), flags)
    ensures AllMapped(b, cr3, 0x80_0000, 0x80_0000 + size)
  {
    BufferRegion(0x80_0000, size);
    RegionMapped(a, b, cr3, 0x80_0000, Turns(0x80_0000, 0x80_0000 + size), size, flags);
  }

  lemma BufferRegion(start: nat, size: nat)
    requires start % 0x1000 == 0 && start + size <= 0x8000_0000_0000
    ensures size <= Turns(start, start + size) * 0x1000 && start + Turns(start, start + size) * 0x1000 <= 0x8000_0000_0000
  {}

  method MakeBuffer(mem: M.Memory, cr3: nat, size: nat) returns (halted: bool)
    requires mem.Valid() && cr3 in mem.a.upper && 0x80_0000 + size <= 0x8000_0000_0000
    modifies mem`words, mem`a, mem.ba.Repr
    ensures mem.Valid()
    ensures halted ==> mem.OutOfFrames()
    ensures !halted ==>
      && Grows(old(mem.a), mem.a, BufferNodes(cr3, size), 3)
      && AllMapped(mem.a, cr3, 0x80_0000, 0x80_0000 + size)
  {
    ghost var a, more := mem.a, {};
    assert RoundDown(0x80_0000) == 0x80_0000;
    halted, more := mem.AllocateRegion(cr3, 0x80_0000, 0x80_0000 + size, 3);
    if halted { return; }
    assert more == BufferNodes(cr3, size);
    BufferMapped(a, mem.a, cr3, size, 3);
  }

  /** The file is read into the buffer. */
  method ReadFile(mem: M.Memory, cr3: nat, image: seq<byte>) returns (halted: bool)
    requires mem.Valid() && cr3 in mem.a.upper && 0x80_0000 + |image| <= 0x8000_0000_0000
    modifies mem`words, mem`a, mem`bytes, mem.ba.Repr
    ensures mem.Valid()
    ensures halted ==> mem.OutOfFrames()
    ensures !halted ==>
      && Grows(old(mem.a), mem.a, BufferNodes(cr3, |image|), 3)
      && AllMapped(mem.a, cr3, 0x80_0000, 0x80_0000 + |image|)
      && Backed(mem.a, old(mem.bytes)) && Written(mem.a, old(mem.bytes), mem.bytes, cr3, 0x80_0000, image)
  {
    halted := MakeBuffer(mem, cr3, |image|);
    if halted { return; }
    StoreImage(mem, cr3, image);
  }

  method StoreImage(mem: M.Memory, cr3: nat, image: seq<byte>)
    requires mem.Valid() && 0x80_0000 + |image| <= 0x8000_0000_0000
    requires AllMapped(mem.a, cr3, 0x80_0000, 0x80_0000 + |image|)
    modifies mem`bytes
    ensures mem.Valid() && Written(mem.a, old(mem.bytes), mem.bytes, cr3, 0x80_0000, image)
  {
    ghost var before := mem.bytes;
    WrittenNothing(mem.a, before, cr3, 0x80_0000);
    assert [] + image == image;
    mem.StoreBytes(before, 0x80_0000, [], cr3, 0x80_0000, image);
  }

  /** What execve has done before it maps segments: the old memory gone, the file in the buffer. */
  ghost predicate FileRead(a: Spaces, bytes: Contents, cleared: Spaces, b: Spaces, read: Contents, p: Proc, image: seq<byte>) {
    && Shrinks(a, cleared, ExecPages(p)) && Grows(cleared, b, BufferNodes(p.cr3, |image|), 3)
    && SpacesInv(b) && Backed(b, bytes) && AllMapped(b, p.cr3, 0x80_0000, 0x80_0000 + |image|)
    && Written(b, bytes, read, p.cr3, 0x80_0000, image)
  }

  /** The same, kept out of proofs that only pass it on. */
  ghost predicate FileReadSealed(a: Spaces, bytes: Contents, cleared: Spaces, b: Spaces, read: Contents, p: Proc, image: seq<byte>) {
    b.upper == a.upper && (Sealed(p.cr3) ==> FileRead(a, bytes, cleared, b, read, p, image))
  }

  lemma FileIsHeld(a: Spaces, bytes: Contents, read: Contents, cr3: nat, image: seq<byte>)
    requires SpacesInv(a) && Backed(a, bytes) && AllMapped(a, cr3, 0x80_0000, 0x80_0000 + |image|)
    requires Written(a, bytes, read, cr3, 0x80_0000, image) && 0x80_0000 + |image| <= 0x8000_0000_0000
    ensures Elf.Holds(a, read, cr3, 0x80_0000, image)
  {
    forall i | 0 <= i < |image|
      ensures Elf.Reads(a, read, cr3, 0x80_0000 + i, image[i])
    {
      assert Mapped(a, cr3, 0x80_0000 + i);
    }
  }

  /** From the opened file to the file in the buffer. */
  method FetchFile(mem: M.Memory, proc: Process, image: seq<byte>) returns (halted: bool, ghost cleared: Spaces)
    requires mem.Valid() && proc.cr3 in mem.a.upper && GoodProc(View(proc)) && proc !in mem.ba.Repr
    requires 0x80_0000 + |image| <= 0x8000_0000_0000
    modifies mem`words, mem`a, mem`bytes, mem.ba.Repr, proc`elfEnd, proc`anonEnd
    ensures mem.Valid()
    ensures halted ==> mem.OutOfFrames()
    ensures !halted ==> View(proc) == old(View(proc)).(anonEnd := 0x80_0000)
    ensures !halted ==> FileReadSealed(old(mem.a), old(mem.bytes), cleared, mem.a, mem.bytes, old(View(proc)), image)
    ensures !halted ==> Elf.Holds(mem.a, mem.bytes, proc.cr3, 0x80_0000, image)
  {
    ClearForExec(mem, proc);
    cleared := mem.a;
    SetEnds(mem, proc, proc.elfEnd, 0x80_0000);
    ghost var bytes := mem.bytes;
    halted := ReadFile(mem, proc.cr3, image);
    if !halted {
      FileIsHeld(mem.a, bytes, mem.bytes, proc.cr3, image);
    }
  }

  /** The new program's end is kept, and the buffer given back. */
  method GiveBuffer(mem: M.Memory, proc: Process, highest: nat, size: nat)
    requires mem.Valid() && proc.cr3 in mem.a.upper && proc !in mem.ba.Repr && 0x80_0000 + size <= 0x8000_0000_0000
    modifies mem`words, mem`a, mem.ba.Repr, proc`elfEnd, proc`anonEnd
    ensures mem.Valid() && View(proc) == old(View(proc)).(elfEnd := highest)
    ensures Shrinks(old(mem.a), mem.a, BufferPages(proc.cr3, size))
  {
    assert RoundDown(0x80_0000) == 0x80_0000;
    SetEnds(mem, proc, highest, proc.anonEnd);
    mem.FreeRegion(proc.cr3, 0x80_0000, 0x80_0000 + size);
  }

  /** The new program: its segments, its end and entry point, and the buffer given back. */
  method StartProgram(mem: M.Memory, proc: Process, ghost image: seq<byte>, size: nat)
    returns (halted: bool, entry: nat, ghost loaded: Spaces)
    requires mem.Valid() && proc.cr3 in mem.a.upper && proc !in mem.ba.Repr && size == |image|
    requires Elf.GoodFile(0x80_0000, image) && Elf.Holds(mem.a, mem.bytes, proc.cr3, 0x80_0000, image)
    modifies mem`words, mem`a, mem`bytes, mem.ba.Repr, proc`elfEnd, proc`anonEnd
    ensures mem.Valid()
    ensures halted ==> mem.OutOfFrames()
    ensures !halted ==> View(proc) == old(View(proc)).(elfEnd := Elf.Highest(Elf.Programs(image)))
    ensures !halted ==>
      && Elf.Loading(old(mem.a), loaded, old(mem.bytes), mem.bytes, proc.cr3, image, Elf.Programs(image))
      && Shrinks(loaded, mem.a, BufferPages(proc.cr3, size)) && entry == Elf.EntryPoint(image)
  {
    ghost var a, bytes := mem.a, mem.bytes;
    var highest;
    entry := 0;
    halted, highest := Elf.MapElf(mem, proc.cr3, 0x80_0000, image);
    loaded := mem.a;
    if halted { return; }
    entry := Elf.ReadEntry(mem, a, bytes, proc.cr3, 0x80_0000, image);
    GiveBuffer(mem, proc, highest, size);
  }

  lemma ExecComplete(a: Spaces, bytes: Contents, st: Stages, read: Contents, b: Spaces, after: Contents,
                     p: Proc, q: Proc, image: seq<byte>, programs: seq<Elf.Program>)
    requires FileReadSealed(a, bytes, st.cleared, st.buffered, read, p, image)
    requires Elf.Loading(st.buffered, st.loaded, read, after, p.cr3, image, programs)
    requires Shrinks(st.loaded, b, BufferPages(p.cr3, |image|))
    requires q == Proc(p.cr3, Elf.Highest(programs), 0x80_0000)
    ensures ExecDone(a, st, b, p, q, |image|, programs)
    ensures ExecLoaded(bytes, st, read, after, p.cr3, image, programs)
  {
    AlwaysSealed(p.cr3);
    Elf.LoadingGrows(st.buffered, st.loaded, read, after, p.cr3, image, programs);
  }

  /** `execve_syscall`, up to the jump to `entry`; `pathLen` counts the terminating zero. */
  method Execve(mem: M.Memory, proc: Process, file: File, pathLen: nat)
    returns (r: Execed, entry: nat, ghost st: Stages, ghost read: Contents)
    requires mem.Valid() && proc.cr3 in mem.a.upper && GoodProc(View(proc)) && proc !in mem.ba.Repr
    requires file.File? ==> Elf.GoodFile(0x80_0000, file.image)
    modifies mem`words, mem`a, mem`bytes, mem.ba.Repr, proc`elfEnd, proc`anonEnd
    ensures mem.Valid()
    ensures r.Refused? <==> file.NoFile? || pathLen > 0x2000
    ensures r.Refused? ==> mem.a == old(mem.a) && mem.bytes == old(mem.bytes) && View(proc) == old(View(proc))
    ensures r.ExecHalted? ==> mem.OutOfFrames()
    ensures r.Started? ==>
      && ExecDone(old(mem.a), st, mem.a, old(View(proc)), View(proc), |file.image|, Elf.Programs(file.image))
      && ExecLoaded(old(mem.bytes), st, read, mem.bytes, proc.cr3, file.image, Elf.Programs(file.image))
      && entry == Elf.EntryPoint(file.image)
  {
    entry := 0;
    st, read := Stages(mem.a, mem.a, mem.a), mem.bytes;
    if file.NoFile? || pathLen > 0x2000 {
      return Refused, entry, st, read;
    }
    ghost var a, bytes, p := mem.a, mem.bytes, View(proc);
    var halted;
    ghost var cleared, loaded;
    halted, cleared := FetchFile(mem, proc, file.image);
    if halted {
      return ExecHalted, entry, st, read;
    }
    read := mem.bytes;
    ghost var buffered := mem.a;
    halted, entry, loaded := StartProgram(mem, proc, file.image, |file.image|);
    if halted {
      return ExecHalted, entry, st, read;
    }
    st := Stages(cleared, buffered, loaded);
    ExecComplete(a, bytes, st, read, mem.a, mem.bytes, p, View(proc), file.image, Elf.Programs(file.image));
    return Started, entry, st, read;
  }
}
