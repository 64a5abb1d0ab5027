/** What execve leaves in memory: the new program, the old stack, and everybody else's pages. */
module Executing {

  import opened Bytes
  import opened PageTables
  import opened Spaces
  import opened Lifetimes
  import Elf
  import Forking

  /** What was in memory at the points between the parts of execve. */
  ghost predicate ExecLoaded(before: Contents, st: Stages, read: Contents, after: Contents, cr3: nat,
                             image: seq<byte>, programs: seq<Elf.Program>)
  {
    && SpacesInv(st.buffered) && Backed(st.buffered, before) && AllMapped(st.buffered, cr3, 0x80_0000, 0x80_0000 + |image|)
    && Written(st.buffered, before, read, cr3, 0x80_0000, image)
    && Elf.Loading(st.buffered, st.loaded, read, after, cr3, image, programs)
  }

  /** Segments lie where the kernel expects them, between the stack and the anonymous memory. */
  predicate BetweenStackAndHeap(programs: seq<Elf.Program>) {
    forall p | p in programs && Elf.Loadable(p) :: 0x40_0000 <= p.vaddr && p.vaddr + p.memsz <= 0x80_0000
  }

  lemma Placed(programs: seq<Elf.Program>, size: nat)
    requires BetweenStackAndHeap(programs)
    ensures PlacedPrograms(programs) && MissesBuffer(programs, size)
  {}

  /** What `Syscalls.Execve` promises is a step of the system, if no segment starts below 2 MiB. */
  lemma ExecveIsStep(s: System, cr3: nat, st: Stages, image: seq<byte>, b: Spaces, q: Proc)
    requires cr3 in s.procs && Elf.GoodFile(0x80_0000, image)
    requires forall p | p in Elf.Programs(image) && Elf.Loadable(p) :: 0x20_0000 <= p.vaddr
    requires ExecDone(s.spaces, st, b, s.procs[cr3], q, |image|, Elf.Programs(image))
    ensures Step(s, Exec(cr3, st, |image|, Elf.Programs(image)), System(b, s.procs[cr3 := q]))
  {}

  /** So every page mapped after it is still among those some live process's exit will free. */
  lemma ExecveKeepsSystem(s: System, cr3: nat, st: Stages, image: seq<byte>, b: Spaces, q: Proc)
    requires SystemInv(s) && cr3 in s.procs && Elf.GoodFile(0x80_0000, image)
    requires forall p | p in Elf.Programs(image) && Elf.Loadable(p) :: 0x20_0000 <= p.vaddr
    requires ExecDone(s.spaces, st, b, s.procs[cr3], q, |image|, Elf.Programs(image))
    ensures SystemInv(System(b, s.procs[cr3 := q]))
  {
    ExecveIsStep(s, cr3, st, image, b, q);
    StepKeeps(s, Exec(cr3, st, |image|, Elf.Programs(image)), System(b, s.procs[cr3 := q]));
  }

  /** What the buffer holds at any point of loading: the file, with the segments loaded so far on top. */
  lemma BufferWhileLoading(before: Contents, st: Stages, read: Contents, mid: Spaces, bytes: Contents, cr3: nat,
                           image: seq<byte>, done: seq<Elf.Program>, i: nat)
    requires SpacesInv(st.buffered) && Backed(st.buffered, before)
    requires AllMapped(st.buffered, cr3, 0x80_0000, 0x80_0000 + |image|)
    requires Written(st.buffered, before, read, cr3, 0x80_0000, image)
    requires Elf.Loading(st.buffered, mid, read, bytes, cr3, image, done)
    requires i < |image| && 0x80_0000 + |image| <= 0x8000_0000_0000
    ensures SpacesInv(mid) && Backed(mid, bytes) && Mapped(mid, cr3, 0x80_0000 + i)
    ensures forall p | p in done :: Elf.GoodProgram(p, image)
    ensures ByteAt(mid, bytes, cr3, 0x80_0000 + i) == Elf.SegmentByte(image, done, 0x80_0000 + i, image[i])
  {
    var x := 0x80_0000 + i;
    assert Mapped(st.buffered, cr3, x);
    Elf.LoadingByte(st.buffered, mid, read, bytes, cr3, image, done, x);
  }

  /** The segment byte at `x`, by the segment that gave it. */
  lemma ByteOfSegment(image: seq<byte>, done: seq<Elf.Program>, x: nat, was: byte)
    requires forall p | p in done :: Elf.GoodProgram(p, image)
    ensures var k := Elf.SegmentOf(done, x);
      if k < |done| then
        && Elf.GoodProgram(done[k], image) && Elf.Loadable(done[k])
        && Elf.SegmentByte(image, done, x, was) == Elf.FileByte(done[k], image, x - done[k].vaddr)
      else Elf.SegmentByte(image, done, x, was) == was
  {
    var k := Elf.SegmentOf(done, x);
    if k < |done| {
      assert done[k] in done;
    }
  }

  /** The buffer's byte `i` is the file's: no segment lies there, or the last one that does has the same byte. */
  ghost predicate SameByteInFile(image: seq<byte>, done: seq<Elf.Program>, i: nat)
    requires i < |image| && forall p | p in done :: Elf.GoodProgram(p, image)
  {
    var x := 0x80_0000 + i;
    var k := Elf.SegmentOf(done, x);
    k < |done| ==> done[k] in done && Elf.FileByte(done[k], image, x - done[k].vaddr) == image[i]
  }

  /**
    At any point of loading the buffer holds the file's byte exactly where no segment
    lies, or the segment that was loaded there last has the same byte.
   */
  lemma BufferKeptExactlyWhen(before: Contents, st: Stages, read: Contents, mid: Spaces, bytes: Contents, cr3: nat,
                              image: seq<byte>, done: seq<Elf.Program>, i: nat)
    requires SpacesInv(st.buffered) && Backed(st.buffered, before)
    requires AllMapped(st.buffered, cr3, 0x80_0000, 0x80_0000 + |image|)
    requires Written(st.buffered, before, read, cr3, 0x80_0000, image)
    requires Elf.Loading(st.buffered, mid, read, bytes, cr3, image, done)
    requires i < |image| && 0x80_0000 + |image| <= 0x8000_0000_0000
    ensures SpacesInv(mid) && Backed(mid, bytes) && Mapped(mid, cr3, 0x80_0000 + i)
    ensures forall p | p in done :: Elf.GoodProgram(p, image)
    ensures ByteAt(mid, bytes, cr3, 0x80_0000 + i) == image[i] <==> SameByteInFile(image, done, i)
  {
    BufferWhileLoading(before, st, read, mid, bytes, cr3, image, done, i);
    ByteOfSegment(image, done, 0x80_0000 + i, image[i]);
  }

  /**
    While segments that miss the buffer are being loaded it still holds the file:
    reading the headers and bytes of later segments from it gives what the file says.
   */
  lemma BufferHoldsFile(before: Contents, st: Stages, read: Contents, mid: Spaces, bytes: Contents, cr3: nat,
                        image: seq<byte>, done: seq<Elf.Program>, i: nat)
    requires SpacesInv(st.buffered) && Backed(st.buffered, before)
    requires AllMapped(st.buffered, cr3, 0x80_0000, 0x80_0000 + |image|)
    requires Written(st.buffered, before, read, cr3, 0x80_0000, image)
    requires Elf.Loading(st.buffered, mid, read, bytes, cr3, image, done) && MissesBuffer(done, |image|)
    requires i < |image| && 0x80_0000 + |image| <= 0x8000_0000_0000
    ensures SpacesInv(mid) && Backed(mid, bytes) && Mapped(mid, cr3, 0x80_0000 + i)
    ensures ByteAt(mid, bytes, cr3, 0x80_0000 + i) == image[i]
  {
    BufferWhileLoading(before, st, read, mid, bytes, cr3, image, done, i);
    MissedByAll(done, |image|, i);
  }

  lemma MissedByAll(programs: seq<Elf.Program>, size: nat, i: nat)
    requires MissesBuffer(programs, size) && i < size
    ensures Elf.SegmentOf(programs, 0x80_0000 + i) == |programs|
  {}

  /**
    And conversely: once a segment that meets the buffer is loaded, the buffer holds
    the segment's byte where they meet, which is the file's only if the two agree.
   */
  lemma BufferOverwritten(before: Contents, st: Stages, read: Contents, mid: Spaces, bytes: Contents, cr3: nat,
                          image: seq<byte>, done: seq<Elf.Program>, p: Elf.Program, i: nat)
    requires SpacesInv(st.buffered) && Backed(st.buffered, before)
    requires AllMapped(st.buffered, cr3, 0x80_0000, 0x80_0000 + |image|)
    requires Written(st.buffered, before, read, cr3, 0x80_0000, image)
    requires Elf.Loading(st.buffered, mid, read, bytes, cr3, image, done + [p])
    requires i < |image| && 0x80_0000 + |image| <= 0x8000_0000_0000 && Elf.Contains(p, 0x80_0000 + i)
    ensures SpacesInv(mid) && Backed(mid, bytes) && Mapped(mid, cr3, 0x80_0000 + i) && Elf.GoodProgram(p, image)
    ensures ByteAt(mid, bytes, cr3, 0x80_0000 + i) == Elf.FileByte(p, image, 0x80_0000 + i - p.vaddr)
    ensures !MissesBuffer(done + [p], |image|)
  {
    BufferWhileLoading(before, st, read, mid, bytes, cr3, image, done + [p], i);
    Elf.SegmentOfMore(done, p, 0x80_0000 + i);
    assert p in done + [p];
  }

  /** A file of the usual first byte whose segment is one zero byte at 8 MiB: the loader itself wipes out that byte. */
  lemma OverwrittenExample(before: Contents, st: Stages, read: Contents, mid: Spaces, bytes: Contents, cr3: nat, image: seq<byte>)
    requires SpacesInv(st.buffered) && Backed(st.buffered, before)
    requires Elf.GoodHeader(image) && 0x78 <= |image| && 0x80_0000 + |image| <= 0x8000_0000_0000 && image[0] == 0x7f
    requires Elf.Programs(image) == [Elf.Program(1, 0, 0x80_0000, 0, 1)]
    requires AllMapped(st.buffered, cr3, 0x80_0000, 0x80_0000 + |image|)
    requires Written(st.buffered, before, read, cr3, 0x80_0000, image)
    requires Elf.Loading(st.buffered, mid, read, bytes, cr3, image, Elf.Programs(image))
    ensures SpacesInv(mid) && Backed(mid, bytes) && Mapped(mid, cr3, 0x80_0000)
    ensures ByteAt(mid, bytes, cr3, 0x80_0000) == 0
  {
    var p := Elf.Program(1, 0, 0x80_0000, 0, 1);
    assert [] + [p] == [p];
    BufferOverwritten(before, st, read, mid, bytes, cr3, image, [], p, 0);
  }

  /** The page of `x` is one of those the buffer takes, whether the file's bytes reach `x` or not. */
  predicate InBufferPages(size: nat, x: nat) {
    0x800 <= x / 0x1000 < PageEnd(0x80_0000 + size)
  }

  lemma BufferPageOf(cr3: nat, size: nat, root: nat, x: nat)
    requires 0x80_0000 + size <= 0x8000_0000_0000 && x < 0x8000_0000_0000
    ensures Node(root, PathOf(x)) in BufferPages(cr3, size) <==> root == cr3 && InBufferPages(size, x)
  {
    var n := Node(root, PathOf(x));
    assert RoundDown(0x80_0000) == 0x80_0000;
    LoopRange(cr3, 0x80_0000, 0x80_0000 + size, n);
    if root == cr3 {
      Forking.RangeOf(root, x, 0x800, PageEnd(0x80_0000 + size));
    }
  }

  lemma SameByte(a: Spaces, b: Spaces, bytes: Contents, root: nat, x: nat)
    requires SpacesInv(a) && SpacesInv(b) && Backed(a, bytes) && Mapped(a, root, x) && Mapped(b, root, x)
    requires b.managed == a.managed && FrameAt(a, root, x) == FrameAt(b, root, x)
    ensures Backed(b, bytes) && ByteAt(a, bytes, root, x) == ByteAt(b, bytes, root, x)
  {
    StillBacked(a, b, bytes);
  }

  /** Freeing the buffer takes its whole pages away and leaves the bytes outside them. */
  lemma AfterBuffer(st: Stages, b: Spaces, after: Contents, cr3: nat, size: nat, root: nat, x: nat)
    requires SpacesInv(st.loaded) && Backed(st.loaded, after) && 0x80_0000 + size <= 0x8000_0000_0000
    requires Shrinks(st.loaded, b, BufferPages(cr3, size)) && x < 0x8000_0000_0000 && Mapped(st.loaded, root, x)
    ensures Mapped(b, root, x) <==> !(root == cr3 && InBufferPages(size, x))
    ensures Backed(b, after)
    ensures Mapped(b, root, x) ==> ByteAt(b, after, root, x) == ByteAt(st.loaded, after, root, x)
  {
    BufferPageOf(cr3, size, root, x);
    StillBacked(st.loaded, b, after);
    if Mapped(b, root, x) {
      SameByte(st.loaded, b, after, root, x);
    }
  }

  /**
    After execve a segment byte is mapped exactly when it is in no page of the buffer,
    and where it is it holds the file's byte, or zero past the file's part.
   */
  lemma ProgramInPlaceExactlyWhen(a: Spaces, before: Contents, st: Stages, read: Contents, b: Spaces, after: Contents,
                                  p: Proc, q: Proc, image: seq<byte>, programs: seq<Elf.Program>, k: nat, x: nat)
    requires ExecDone(a, st, b, p, q, |image|, programs) && 0x80_0000 + |image| <= 0x8000_0000_0000
    requires ExecLoaded(before, st, read, after, p.cr3, image, programs) && Elf.DisjointSegments(programs)
    requires k < |programs| && Elf.Contains(programs[k], x)
    ensures SpacesInv(b) && Backed(b, after) && Elf.GoodProgram(programs[k], image)
    ensures Mapped(b, p.cr3, x) <==> !InBufferPages(|image|, x)
    ensures Mapped(b, p.cr3, x) <==> x / 0x1000 < 0x800 || (0x80_0000 + |image| + 0xfff) / 0x1000 <= x / 0x1000
    ensures Mapped(b, p.cr3, x) ==> ByteAt(b, after, p.cr3, x) == Elf.FileByte(programs[k], image, x - programs[k].vaddr)
  {
    Elf.SegmentsReadBack(st.buffered, st.loaded, read, after, p.cr3, image, programs, k, x);
    AfterBuffer(st, b, after, p.cr3, |image|, p.cr3, x);
  }

  /** So all bytes of all segments between 4 and 8 MiB are there. */
  lemma ProgramInPlace(a: Spaces, before: Contents, st: Stages, read: Contents, b: Spaces, after: Contents,
                       p: Proc, q: Proc, image: seq<byte>, programs: seq<Elf.Program>, k: nat, x: nat)
    requires ExecDone(a, st, b, p, q, |image|, programs) && 0x80_0000 + |image| <= 0x8000_0000_0000
    requires ExecLoaded(before, st, read, after, p.cr3, image, programs)
    requires BetweenStackAndHeap(programs) && Elf.DisjointSegments(programs)
    requires k < |programs| && Elf.Contains(programs[k], x)
    ensures SpacesInv(b) && Backed(b, after) && Mapped(b, p.cr3, x) && Elf.GoodProgram(programs[k], image)
    ensures ByteAt(b, after, p.cr3, x) == Elf.FileByte(programs[k], image, x - programs[k].vaddr)
  {
    assert programs[k] in programs;
    ProgramInPlaceExactlyWhen(a, before, st, read, b, after, p, q, image, programs, k, x);
  }

  /**
    To miss the buffer byte by byte is not enough: of a file of 0x100 bytes with a
    segment in the buffer's last page, the loader unmaps the segment with the buffer.
   */
  lemma SharedPageExample(a: Spaces, before: Contents, st: Stages, read: Contents, b: Spaces, after: Contents,
                          p: Proc, q: Proc, image: seq<byte>)
    requires |image| == 0x100 && Elf.GoodFile(0x80_0000, image)
    requires Elf.Programs(image) == [Elf.Program(1, 0, 0x80_0100, 1, 1)]
    requires ExecDone(a, st, b, p, q, |image|, Elf.Programs(image))
    requires ExecLoaded(before, st, read, after, p.cr3, image, Elf.Programs(image))
    ensures MissesBuffer(Elf.Programs(image), |image|) && PlacedPrograms(Elf.Programs(image))
    ensures Mapped(st.loaded, p.cr3, 0x80_0100) && !Mapped(b, p.cr3, 0x80_0100)
  {
    var programs := Elf.Programs(image);
    assert PageEnd(0x80_0100) == 0x801;
    Elf.SegmentsReadBack(st.buffered, st.loaded, read, after, p.cr3, image, programs, 0, 0x80_0100);
    ProgramInPlaceExactlyWhen(a, before, st, read, b, after, p, q, image, programs, 0, 0x80_0100);
  }

  /** Both ends lie in the user half. */
  predicate InUserHalf(p: Proc) {
    p.elfEnd <= 0x8000_0000_0000 && p.anonEnd <= 0x8000_0000_0000
  }

  lemma StackNotCleared(p: Proc, root: nat, x: nat)
    requires InUserHalf(p) && x < 0x8000_0000_0000 && (root != p.cr3 || x < 0x40_0000)
    ensures Node(root, PathOf(x)) !in ExecPages(p)
  {
    var n := Node(root, PathOf(x));
    ExitIs(p, n);
    if root == p.cr3 {
      Forking.RangeOf(root, x, 0x400, PageEnd(p.elfEnd));
      Forking.RangeOf(root, x, 0x800, PageEnd(p.anonEnd));
    }
  }

  /** Up to the loading of segments, bytes of the stack and of other spaces stay. */
  lemma StackUntilLoading(a: Spaces, before: Contents, st: Stages, read: Contents, p: Proc, size: nat,
                          image: seq<byte>, root: nat, x: nat)
    requires SpacesInv(a) && Backed(a, before) && InUserHalf(p) && size == |image|
    requires Shrinks(a, st.cleared, ExecPages(p))
    requires Grows(st.cleared, st.buffered, BufferNodes(p.cr3, size), 3)
    requires Backed(st.buffered, before) && Written(st.buffered, before, read, p.cr3, 0x80_0000, image)
    requires x < 0x8000_0000_0000 && Mapped(a, root, x) && (root != p.cr3 || x < 0x40_0000)
    ensures Mapped(st.buffered, root, x) && ByteAt(st.buffered, read, root, x) == ByteAt(a, before, root, x)
  {
    StackNotCleared(p, root, x);
    SameByte(a, st.buffered, before, root, x);
  }

  /** While segments are loaded, bytes of other spaces stay, and those of this one are the segments' where one lies. */
  lemma StackWhileLoading(st: Stages, read: Contents, after: Contents, cr3: nat, image: seq<byte>,
                          programs: seq<Elf.Program>, root: nat, x: nat)
    requires SpacesInv(st.buffered) && Backed(st.buffered, read)
    requires Elf.Loading(st.buffered, st.loaded, read, after, cr3, image, programs)
    requires x < 0x8000_0000_0000 && Mapped(st.buffered, root, x)
    ensures SpacesInv(st.loaded) && Backed(st.loaded, after) && Mapped(st.loaded, root, x)
    ensures forall p | p in programs :: Elf.GoodProgram(p, image)
    ensures ByteAt(st.loaded, after, root, x) ==
      var was := ByteAt(st.buffered, read, root, x);
      if root == cr3 then Elf.SegmentByte(image, programs, x, was) else was
  {
    Elf.LoadingAnyByte(st.buffered, st.loaded, read, after, cr3, image, programs, root, x);
  }

  lemma StackUntilLoaded(a: Spaces, before: Contents, st: Stages, read: Contents, after: Contents, p: Proc,
                         image: seq<byte>, programs: seq<Elf.Program>, root: nat, x: nat)
    requires SpacesInv(a) && Backed(a, before) && InUserHalf(p)
    requires Shrinks(a, st.cleared, ExecPages(p))
    requires Grows(st.cleared, st.buffered, BufferNodes(p.cr3, |image|), 3)
    requires ExecLoaded(before, st, read, after, p.cr3, image, programs)
    requires x < 0x8000_0000_0000 && Mapped(a, root, x) && (root != p.cr3 || x < 0x40_0000)
    ensures SpacesInv(st.loaded) && Backed(st.loaded, after) && Mapped(st.loaded, root, x)
    ensures forall p | p in programs :: Elf.GoodProgram(p, image)
    ensures ByteAt(st.loaded, after, root, x) ==
      var was := ByteAt(a, before, root, x);
      if root == p.cr3 then Elf.SegmentByte(image, programs, x, was) else was
  {
    StackUntilLoading(a, before, st, read, p, |image|, image, root, x);
    StackWhileLoading(st, read, after, p.cr3, image, programs, root, x);
  }

  /**
    What execve leaves of the process's stack and of every other space, wherever the
    segments lie: all of it, except that a stack byte a segment holds is the segment's.
   */
  lemma StackAfterExec(a: Spaces, before: Contents, st: Stages, read: Contents, b: Spaces, after: Contents,
                       p: Proc, q: Proc, image: seq<byte>, programs: seq<Elf.Program>, root: nat, x: nat)
    requires SpacesInv(a) && Backed(a, before) && InUserHalf(p) && 0x80_0000 + |image| <= 0x8000_0000_0000
    requires ExecDone(a, st, b, p, q, |image|, programs)
    requires ExecLoaded(before, st, read, after, p.cr3, image, programs)
    requires x < 0x8000_0000_0000 && Mapped(a, root, x) && (root != p.cr3 || x < 0x40_0000)
    ensures SpacesInv(b) && Backed(b, after) && Mapped(b, root, x)
    ensures forall p | p in programs :: Elf.GoodProgram(p, image)
    ensures ByteAt(b, after, root, x) ==
      var was := ByteAt(a, before, root, x);
      if root == p.cr3 then Elf.SegmentByte(image, programs, x, was) else was
  {
    StackUntilLoaded(a, before, st, read, after, p, image, programs, root, x);
    AfterBuffer(st, b, after, p.cr3, |image|, root, x);
  }

  /** So what no segment holds is as it was. */
  lemma StackKept(a: Spaces, before: Contents, st: Stages, read: Contents, b: Spaces, after: Contents,
                  p: Proc, q: Proc, image: seq<byte>, programs: seq<Elf.Program>, root: nat, x: nat)
    requires SpacesInv(a) && Backed(a, before) && InUserHalf(p) && 0x80_0000 + |image| <= 0x8000_0000_0000
    requires ExecDone(a, st, b, p, q, |image|, programs)
    requires ExecLoaded(before, st, read, after, p.cr3, image, programs)
    requires x < 0x8000_0000_0000 && Mapped(a, root, x)
    requires root != p.cr3 || (x < 0x40_0000 && forall p | p in programs :: !Elf.Contains(p, x))
    ensures SpacesInv(b) && Backed(b, after) && Mapped(b, root, x) && ByteAt(b, after, root, x) == ByteAt(a, before, root, x)
  {
    StackAfterExec(a, before, st, read, b, after, p, q, image, programs, root, x);
    ByteOfSegment(image, programs, x, ByteAt(a, before, root, x));
  }
}
