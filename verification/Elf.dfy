/** `map_elf`: maps the loadable segments of a program and puts their bytes in place. */
module Elf {

  import opened Bytes
  import opened Integers
  import opened PageTables
  import opened Spaces
  import opened Seal
  import M = Memory

  /** The fields of a program header that are used; only kind 1 is loaded. */
  datatype Program = Program(kind: nat, offset: nat, vaddr: nat, filesz: nat, memsz: nat)

  predicate Loadable(p: Program) {
    p.kind == 1
  }

  predicate Contains(p: Program, x: nat) {
    Loadable(p) && p.vaddr <= x < p.vaddr + p.memsz
  }

  // -- the file format --------------------------------------------------------

  /** The number some bytes stand for, the lowest first. */
  function Number(data: seq<byte>): nat {
    if data == [] then 0 else data[0] + 0x100 * Number(data[1..])
  }

  /** The `k` bytes a number is stored in. */
  function Stored(n: nat, k: nat): seq<byte> {
    if k == 0 then [] else [n % 0x100] + Stored(n / 0x100, k - 1)
  }

  function Pow256(k: nat): nat {
    if k == 0 then 1 else 0x100 * Pow256(k - 1)
  }

  /** Every number that fits is read back from its bytes. */
  lemma {:induction false} NumberRoundTrip(n: nat, k: nat)
    requires n < Pow256(k)
    ensures |Stored(n, k)| == k && Number(Stored(n, k)) == n
  {
    if k > 0 {
      NumberRoundTrip(n / 0x100, k - 1);
    }
  }

  /** And any bytes are those of the number they stand for, which fits. */
  lemma {:induction false} StoredRoundTrip(data: seq<byte>)
    ensures Number(data) < Pow256(|data|) && Stored(Number(data), |data|) == data
  {
    if data != [] {
      StoredRoundTrip(data[1..]);
      assert Number(data) % 0x100 == data[0] && Number(data) / 0x100 == Number(data[1..]);
    }
  }

  /** `e_entry`, `e_phoff` and `e_phnum` of the header. */
  function EntryPoint(image: seq<byte>): nat
    requires |image| >= 64
  {
    Number(image[24..32])
  }

  function HeadersAt(image: seq<byte>): nat
    requires |image| >= 64
  {
    Number(image[32..40])
  }

  function HeaderCount(image: seq<byte>): nat
    requires |image| >= 64
  {
    Number(image[56..58])
  }

  /** The file has the header and the program headers it says it has. */
  predicate GoodHeader(image: seq<byte>) {
    |image| >= 64 && HeadersAt(image) + 56 * HeaderCount(image) <= |image|
  }

  /** The program header at an offset, in the fields that are used. */
  function ProgramAt(image: seq<byte>, at: nat): Program
    requires at + 56 <= |image|
  {
    Program(Number(image[at..at + 4]), Number(image[at + 8..at + 16]), Number(image[at + 16..at + 24]),
            Number(image[at + 32..at + 40]), Number(image[at + 40..at + 48]))
  }

  function Programs(image: seq<byte>): (programs: seq<Program>)
    requires GoodHeader(image)
    ensures |programs| == HeaderCount(image)
  {
    seq(HeaderCount(image), i requires 0 <= i < HeaderCount(image) => ProgramAt(image, HeadersAt(image) + 56 * i))
  }

  /** No segment lies in the `size` bytes from `base` on. */
  predicate Misses(programs: seq<Program>, base: nat, size: nat) {
    forall p | p in programs && Loadable(p) :: p.memsz == 0 || size == 0 || p.vaddr + p.memsz <= base || base + size <= p.vaddr
  }

  // -- pages for a segment ----------------------------------------------------

  /** The pages a segment's size asks for. */
  function PageCount(p: Program): nat {
    (p.memsz + 0xfff) / 0x1000
  }

  /** `int pages`: that count out of 64-bit arithmetic, kept in a signed 32-bit integer. */
  function PageTurns(p: Program): int {
    Int32((p.memsz + 0xfff) % 0x1_0000_0000_0000_0000 / 0x1000)
  }

  /** Some turn of the inner loop maps the page that holds `x`. */
  ghost predicate GetsPage(p: Program, x: nat) {
    exists j: nat | j < PageTurns(p) :: M.TurnAddress(p.vaddr, j) / 0x1000 == x / 0x1000
  }

  /** At most 2^31 bytes, which the pages counted from the size alone reach the last of. */
  predicate Covered(p: Program) {
    p.memsz <= 0x8000_0000 && (p.memsz == 0 || p.vaddr % 0x1000 + p.memsz <= PageCount(p) * 0x1000)
  }

  /**
    The page count ignores where in its first page a segment starts, and the loop
    multiplies in 32 bits.  So every byte of a segment gets a page exactly when the
    segment is `Covered`, as every page-aligned one of at most 2^31 bytes is.
   */
  lemma CoveredExactlyWhen(p: Program)
    requires Loadable(p) && p.vaddr + p.memsz <= 0x1_0000_0000_0000_0000
    ensures (forall x: nat | p.vaddr <= x < p.vaddr + p.memsz :: GetsPage(p, x)) <==> Covered(p)
    ensures Covered(p) <==>
      p.memsz <= 0x8000_0000 && (p.memsz == 0 || p.vaddr % 0x1000 + p.memsz <= (p.memsz + 0xfff) / 0x1000 * 0x1000)
    ensures p.vaddr % 0x1000 == 0 && p.memsz <= 0x8000_0000 ==> Covered(p)
  {
    if p.memsz > 0x8000_0000 {
      HalfIsMissed(p);
    } else if Covered(p) {
      forall x: nat | Contains(p, x) ensures GetsPage(p, x) {
        CoveredGetsPage(p, x);
      }
    } else {
      LastIsMissed(p);
    }
  }

  lemma TurnsAreCount(p: Program)
    requires p.memsz <= 0x8000_0000
    ensures PageTurns(p) == PageCount(p) == (p.memsz + 0xfff) / 0x1000 <= 0x8_0000
  {}

  /** The pages a segment is given, in its own numbers. */
  lemma SegmentPages(cr3: nat, p: Program, x: nat)
    requires p.vaddr + p.memsz < 0x1_0000_0000 && x < 0x8000_0000_0000
    ensures Node(cr3, PathOf(x)) in SegmentNodes(cr3, p) <==>
      p.kind == 1 && p.vaddr / 0x1000 <= x / 0x1000 < p.vaddr / 0x1000 + (p.memsz + 0xfff) / 0x1000
  {
    PagesAreNodes(cr3, p.vaddr, PageCount(p));
    InRegion(cr3, p.vaddr, PageCount(p), x);
  }

  lemma CoveredInPages(p: Program, x: nat)
    requires Covered(p) && Contains(p, x)
    ensures InPages(p.vaddr, PageCount(p), x)
  {}

  lemma CoveredGetsPage(p: Program, x: nat)
    requires Covered(p) && Contains(p, x) && p.vaddr + p.memsz <= 0x1_0000_0000_0000_0000
    ensures GetsPage(p, x)
  {
    TurnsAreCount(p);
    CoveredInPages(p, x);
    var j := x / 0x1000 - p.vaddr / 0x1000;
    M.SmallProduct(p.vaddr, j);
    assert M.TurnAddress(p.vaddr, j) / 0x1000 == x / 0x1000;
  }

  /** Past 2^31 bytes the product wraps, and no turn comes to the byte 2^31 after the start. */
  lemma HalfIsMissed(p: Program)
    requires Loadable(p) && p.memsz > 0x8000_0000 && p.vaddr + p.memsz <= 0x1_0000_0000_0000_0000
    ensures Contains(p, p.vaddr + 0x8000_0000) && !GetsPage(p, p.vaddr + 0x8000_0000)
  {
    var x := p.vaddr + 0x8000_0000;
    forall j: nat | j < PageTurns(p) ensures M.TurnAddress(p.vaddr, j) / 0x1000 != x / 0x1000 {
      WrappedProduct(p.vaddr, j);
    }
  }

  lemma WrappedProduct(start: nat, j: nat)
    requires start + 0x8000_0000 < 0x1_0000_0000_0000_0000
    ensures M.TurnAddress(start, j) / 0x1000 != (start + 0x8000_0000) / 0x1000
  {
    var k := (j + 0x8_0000) % 0x10_0000 - 0x8_0000;
    assert Int32(j * 0x1000) == k * 0x1000;
    if start + k * 0x1000 < 0 {
      assert M.TurnAddress(start, j) == start + k * 0x1000 + 0x1_0000_0000_0000_0000;
    } else {
      assert M.TurnAddress(start, j) == start + k * 0x1000;
    }
  }

  lemma LastIsMissed(p: Program)
    requires Loadable(p) && 0 < p.memsz <= 0x8000_0000 && !Covered(p) && p.vaddr + p.memsz <= 0x1_0000_0000_0000_0000
    ensures Contains(p, p.vaddr + p.memsz - 1) && !GetsPage(p, p.vaddr + p.memsz - 1)
  {
    TurnsAreCount(p);
    var x := p.vaddr + p.memsz - 1;
    assert x / 0x1000 >= p.vaddr / 0x1000 + PageCount(p);
    forall j: nat | j < PageTurns(p) ensures M.TurnAddress(p.vaddr, j) / 0x1000 != x / 0x1000 {
      M.SmallProduct(p.vaddr, j);
    }
  }

  /** Two bytes across a page boundary are given one page, which the second is not in. */
  lemma UncoveredExample()
    ensures PageTurns(Program(1, 0, 0x40_0fff, 2, 2)) == 1
    ensures !GetsPage(Program(1, 0, 0x40_0fff, 2, 2), 0x40_1000)
  {
    assert (2 + 0xfff) / 0x1000 == 1 && 0x40_0fff % 0x1000 == 0xfff;
    LastIsMissed(Program(1, 0, 0x40_0fff, 2, 2));
  }

  /** Of 16 TiB no page is mapped, and of 2.25 GiB the byte 2 GiB after the start is not, aligned as they are. */
  lemma HugeSegmentExample()
    ensures PageTurns(Program(1, 0, 0, 0, 0x1000_0000_0000)) == 0
    ensures !GetsPage(Program(1, 0, 0x40_0000, 0, 0x9000_0000), 0x8040_0000)
  {
    assert (0x1000_0000_0000 + 0xfff) / 0x1000 == 0x1_0000_0000;
    HalfIsMissed(Program(1, 0, 0x40_0000, 0, 0x9000_0000));
  }

  /** A file the loader can take: contents present, sizes in order, ends below 2^32, pages for all bytes. */
  predicate GoodProgram(p: Program, image: seq<byte>) {
    Loadable(p) ==>
      && p.filesz <= p.memsz && p.offset + p.filesz <= |image|
      && p.vaddr + p.memsz < 0x1_0000_0000 && Covered(p)
  }

  /** What a segment holds: the file's bytes, then zeros. */
  ghost function SegmentBytes(p: Program, image: seq<byte>): (data: seq<byte>)
    requires GoodProgram(p, image) && Loadable(p)
    ensures |data| == p.memsz
  {
    image[p.offset..p.offset + p.filesz] + Zeros(p.memsz - p.filesz)
  }

  /** The byte `at` of a segment: the file's, or zero past the file's part. */
  function FileByte(p: Program, image: seq<byte>, at: nat): byte
    requires GoodProgram(p, image) && Loadable(p)
  {
    if at < p.filesz then image[p.offset + at] else 0
  }

  function Zeros(n: nat): (z: seq<byte>)
    ensures |z| == n && forall i | 0 <= i < n :: z[i] == 0
  {
    seq(n, _ => 0)
  }

  /** The nodes for the pages of a segment. */
  ghost function SegmentNodes(cr3: nat, p: Program): set<Node> {
    if Loadable(p) then RegionNodes(cr3, p.vaddr, PageCount(p)) else {}
  }

  ghost function AllNodes(cr3: nat, programs: seq<Program>): set<Node> {
    if programs == [] then {}
    else AllNodes(cr3, programs[..|programs| - 1]) + SegmentNodes(cr3, programs[|programs| - 1])
  }

  /** The last segment that holds address `x`, or |programs| if none does. */
  function SegmentOf(programs: seq<Program>, x: nat): (i: nat)
    ensures i <= |programs|
    ensures i < |programs| ==> Contains(programs[i], x)
    ensures forall j | (if i < |programs| then i < j else 0 <= j) && j < |programs| :: !Contains(programs[j], x)
  {
    var n := |programs|;
    if n == 0 then 0
    else if Contains(programs[n - 1], x) then n - 1
    else
      var i := SegmentOf(programs[..n - 1], x);
      if i == n - 1 then n else i
  }

  /** The byte loaded at `x`, or the byte `was` that was there when no segment holds `x`. */
  ghost function SegmentByte(image: seq<byte>, programs: seq<Program>, x: nat, was: byte): byte
    requires forall p | p in programs :: GoodProgram(p, image)
  {
    var i := SegmentOf(programs, x);
    if i < |programs| then SegmentBytes(programs[i], image)[x - programs[i].vaddr] else was
  }

  /** Memory after loading: segment bytes where a segment lies, the old bytes elsewhere. */
  ghost predicate Loaded(a: Spaces, before: Contents, after: Contents, cr3: nat, image: seq<byte>, programs: seq<Program>)
    requires SpacesInv(a) && Backed(a, before)
    requires forall p | p in programs :: GoodProgram(p, image)
  {
    && Backed(a, after) && after.Keys == before.Keys
    && (forall r: nat, x: nat | x < 0x8000_0000_0000 && Mapped(a, r, x) ::
          ByteAt(a, after, r, x) ==
            if r == cr3 then SegmentByte(image, programs, x, ByteAt(a, before, r, x)) else ByteAt(a, before, r, x))
    && (forall f {:trigger Owned(a.nodes, f)} | f in before && !Owned(a.nodes, f) :: after[f] == before[f])
  }

  ghost predicate SegmentsMapped(a: Spaces, cr3: nat, programs: seq<Program>) {
    forall p, x: nat | p in programs && Contains(p, x) :: Mapped(a, cr3, x)
  }

  /** The greatest end of a loadable segment, or 0. */
  function Highest(programs: seq<Program>): nat {
    if programs == [] then 0 else
      var p := programs[|programs| - 1];
      var h := Highest(programs[..|programs| - 1]);
      if Loadable(p) && p.vaddr + p.memsz > h then p.vaddr + p.memsz else h
  }

  lemma {:induction false} HighestIsGreatest(programs: seq<Program>)
    ensures forall p | p in programs && p.kind == 1 :: p.vaddr + p.memsz <= Highest(programs)
    ensures Highest(programs) == 0 || exists p | p in programs :: p.kind == 1 && Highest(programs) == p.vaddr + p.memsz
  {
    if programs != [] {
      var front := programs[..|programs| - 1];
      HighestIsGreatest(front);
      assert programs == front + [programs[|programs| - 1]];
    }
  }

  // -- one segment ------------------------------------------------------------

  lemma SegmentGetsMapped(a: Spaces, b: Spaces, cr3: nat, p: Program, flags: nat)
    requires Grows(a, b, SegmentNodes(cr3, p), flags) && Loadable(p) && Covered(p)
    requires p.vaddr + p.memsz < 0x1_0000_0000
    ensures AllMapped(b, cr3, p.vaddr, p.vaddr + p.memsz)
  {
    PagesAreNodes(cr3, p.vaddr, PageCount(p));
    forall x: nat | p.vaddr <= x < p.vaddr + p.memsz ensures Mapped(b, cr3, x) {
      CoveredInPages(p, x);
      InRegion(cr3, p.vaddr, PageCount(p), x);
    }
  }

  // -- the buffer the file is in ----------------------------------------------

  ghost predicate Reads(a: Spaces, bytes: Contents, cr3: nat, va: nat, value: byte)
    requires SpacesInv(a) && Backed(a, bytes)
  {
    Mapped(a, cr3, va) && ByteAt(a, bytes, cr3, va) == value
  }

  /** The file can be read at `base`. */
  ghost predicate Holds(a: Spaces, bytes: Contents, cr3: nat, base: nat, image: seq<byte>)
    requires SpacesInv(a) && Backed(a, bytes)
  {
    forall i {:trigger image[i]} | 0 <= i < |image| :: Reads(a, bytes, cr3, base + i, image[i])
  }

  /** Mapping more pages does not change what can be read. */
  lemma HoldsGrows(a: Spaces, b: Spaces, more: set<Node>, bytes: Contents, cr3: nat, base: nat, image: seq<byte>)
    requires SpacesInv(a) && Backed(a, bytes) && Holds(a, bytes, cr3, base, image) && Grows(a, b, more, 7)
    ensures Backed(b, bytes) && Holds(b, bytes, cr3, base, image)
  {
    StillBacked(a, b, bytes);
    forall i | 0 <= i < |image| ensures Reads(b, bytes, cr3, base + i, image[i]) {
      assert Reads(a, bytes, cr3, base + i, image[i]);
      assert FrameAt(b, cr3, base + i) == FrameAt(a, cr3, base + i);
    }
  }

  /** Nor does writing elsewhere. */
  lemma HoldsWritten(a: Spaces, bytes: Contents, after: Contents, cr3: nat, base: nat, image: seq<byte>, va: nat, data: seq<byte>)
    requires SpacesInv(a) && Backed(a, bytes) && Holds(a, bytes, cr3, base, image)
    requires Written(a, bytes, after, cr3, va, data) && base + |image| <= 0x8000_0000_0000
    requires data == [] || image == [] || va + |data| <= base || base + |image| <= va
    ensures Holds(a, after, cr3, base, image)
  {
    forall i | 0 <= i < |image| ensures Reads(a, after, cr3, base + i, image[i]) {
      assert Reads(a, bytes, cr3, base + i, image[i]);
    }
  }

  /** While segments that miss the buffer are being loaded, the whole file can still be read there. */
  lemma StillHolds(before: Spaces, a: Spaces, contents: Contents, bytes: Contents,
                   cr3: nat, base: nat, image: seq<byte>, done: seq<Program>)
    requires SpacesInv(before) && Backed(before, contents) && Holds(before, contents, cr3, base, image)
    requires Loading(before, a, contents, bytes, cr3, image, done)
    requires Misses(done, base, |image|) && base + |image| <= 0x8000_0000_0000
    ensures SpacesInv(a) && Backed(a, bytes) && Holds(a, bytes, cr3, base, image)
  {
    AlwaysSealed(cr3);
    forall i | 0 <= i < |image| ensures Reads(a, bytes, cr3, base + i, image[i]) {
      assert Reads(before, contents, cr3, base + i, image[i]);
      LoadingByte(before, a, contents, bytes, cr3, image, done, base + i);
      assert SegmentOf(done, base + i) == |done|;
    }
  }

  /** Part of the file, read from the buffer. */
  method ReadPart(mem: M.Memory, cr3: nat, base: nat, ghost image: seq<byte>, at: nat, n: nat) returns (data: seq<byte>)
    requires mem.Valid() && Holds(mem.a, mem.bytes, cr3, base, image)
    requires at + n <= |image| && base + |image| <= 0x8000_0000_0000
    ensures data == image[at..at + n]
  {
    forall x: nat | base + at <= x < base + at + n ensures Mapped(mem.a, cr3, x) {
      assert Reads(mem.a, mem.bytes, cr3, base + (x - base), image[x - base]);
    }
    data := mem.LoadBytes(cr3, base + at, n);
    forall i | 0 <= i < n ensures data[i] == image[at..at + n][i] {
      assert Reads(mem.a, mem.bytes, cr3, base + (at + i), image[at + i]);
    }
  }

  method ReadNumber(mem: M.Memory, cr3: nat, base: nat, ghost image: seq<byte>, at: nat, n: nat) returns (value: nat)
    requires mem.Valid() && Holds(mem.a, mem.bytes, cr3, base, image)
    requires at + n <= |image| && base + |image| <= 0x8000_0000_0000
    ensures value == Number(image[at..at + n])
  {
    var data := ReadPart(mem, cr3, base, image, at, n);
    value := Number(data);
  }

  method ReadProgram(mem: M.Memory, cr3: nat, base: nat, ghost image: seq<byte>, at: nat) returns (p: Program)
    requires mem.Valid() && Holds(mem.a, mem.bytes, cr3, base, image)
    requires at + 56 <= |image| && base + |image| <= 0x8000_0000_0000
    ensures p == ProgramAt(image, at)
  {
    var kind := ReadNumber(mem, cr3, base, image, at, 4);
    var offset := ReadNumber(mem, cr3, base, image, at + 8, 8);
    var vaddr := ReadNumber(mem, cr3, base, image, at + 16, 8);
    var filesz := ReadNumber(mem, cr3, base, image, at + 32, 8);
    var memsz := ReadNumber(mem, cr3, base, image, at + 40, 8);
    p := Program(kind, offset, vaddr, filesz, memsz);
  }

  /** A program header in the buffer of a segment that can be loaded without touching the buffer. */
  ghost predicate Sound(cr3: nat, base: nat, image: seq<byte>, at: nat, p: Program) {
    && base + |image| <= 0x8000_0000_0000 && at + 56 <= |image| && p == ProgramAt(image, at)
    && GoodProgram(p, image) && Misses([p], base, |image|)
  }

  /** One turn of the outer loop of `map_elf`, for a loadable segment. */
  method LoadSegment(mem: M.Memory, cr3: nat, base: nat, ghost image: seq<byte>, at: nat, p: Program) returns (halted: bool)
    requires mem.Valid() && cr3 in mem.a.upper && Loadable(p) && Sound(cr3, base, image, at, p)
    requires Holds(mem.a, mem.bytes, cr3, base, image)
    modifies mem`words, mem`a, mem`bytes, mem.ba.Repr
    ensures mem.Valid()
    ensures halted ==> mem.OutOfFrames()
    ensures !halted ==>
      && Grows(old(mem.a), mem.a, SegmentNodes(cr3, p), 7)
      && Backed(mem.a, old(mem.bytes)) && AllMapped(mem.a, cr3, p.vaddr, p.vaddr + p.memsz)
      && Written(mem.a, old(mem.bytes), mem.bytes, cr3, p.vaddr, SegmentBytes(p, image))
  {
    ghost var before, more := mem.a, {};
    TurnsAreCount(p);
    halted, more := mem.MapPages(cr3, p.vaddr, PageTurns(p), 7);
    if halted { return; }
    SegmentGetsMapped(before, mem.a, cr3, p, 7);
    HoldsGrows(before, mem.a, SegmentNodes(cr3, p), mem.bytes, cr3, base, image);
    StoreSegment(mem, cr3, base, image, at, p);
  }

  /** The file's part of a segment, from the buffer to its place. */
  method CopyFromFile(mem: M.Memory, cr3: nat, base: nat, ghost image: seq<byte>, ghost at: nat, p: Program)
    returns (data: seq<byte>)
    requires mem.Valid() && Loadable(p) && Sound(cr3, base, image, at, p) && Holds(mem.a, mem.bytes, cr3, base, image)
    requires AllMapped(mem.a, cr3, p.vaddr, p.vaddr + p.filesz)
    modifies mem`bytes
    ensures mem.Valid() && data == image[p.offset..p.offset + p.filesz]
    ensures Written(mem.a, old(mem.bytes), mem.bytes, cr3, p.vaddr, data)
    ensures Holds(mem.a, mem.bytes, cr3, base, image)
  {
    ghost var before := mem.bytes;
    data := ReadPart(mem, cr3, base, image, p.offset, p.filesz);
    WrittenNothing(mem.a, before, cr3, p.vaddr);
    assert [] + data == data;
    mem.StoreBytes(before, p.vaddr, [], cr3, p.vaddr, data);
    assert p in [p];
    HoldsWritten(mem.a, before, mem.bytes, cr3, base, image, p.vaddr, data);
  }

  method StoreSegment(mem: M.Memory, cr3: nat, base: nat, ghost image: seq<byte>, at: nat, p: Program)
    requires mem.Valid() && Loadable(p) && Sound(cr3, base, image, at, p) && Holds(mem.a, mem.bytes, cr3, base, image)
    requires AllMapped(mem.a, cr3, p.vaddr, p.vaddr + p.memsz)
    modifies mem`bytes
    ensures mem.Valid() && Written(mem.a, old(mem.bytes), mem.bytes, cr3, p.vaddr, SegmentBytes(p, image))
  {
    ghost var before := mem.bytes;
    PartMapped(mem.a, cr3, p.vaddr, p.vaddr + p.filesz, p.vaddr + p.memsz);
    var data := CopyFromFile(mem, cr3, base, image, at, p);
    var again := ReadProgram(mem, cr3, base, image, at);
    ClearRest(mem, before, cr3, image, again, data);
  }

  /** The `memset` behind the file's part, with the header's fields read once more. */
  method ClearRest(mem: M.Memory, ghost before: Contents, cr3: nat, ghost image: seq<byte>, p: Program, ghost data: seq<byte>)
    requires mem.Valid() && Loadable(p) && GoodProgram(p, image) && data == image[p.offset..p.offset + p.filesz]
    requires AllMapped(mem.a, cr3, p.vaddr + p.filesz, p.vaddr + p.memsz)
    requires Backed(mem.a, before) && Written(mem.a, before, mem.bytes, cr3, p.vaddr, data)
    modifies mem`bytes
    ensures mem.Valid() && Written(mem.a, before, mem.bytes, cr3, p.vaddr, SegmentBytes(p, image))
  {
    ghost var all := SegmentBytes(p, image);
    if p.memsz > p.filesz {
      var zeros := Zeros(p.memsz - p.filesz);
      assert all == data + zeros;
      mem.StoreBytes(before, p.vaddr, data, cr3, p.vaddr + p.filesz, zeros);
    } else {
      assert all == data;
    }
  }

  lemma PartMapped(a: Spaces, root: nat, start: nat, middle: nat, end: nat)
    requires start <= middle <= end && AllMapped(a, root, start, end)
    ensures AllMapped(a, root, start, middle) && AllMapped(a, root, middle, end)
  {}

  // -- all segments -----------------------------------------------------------

  lemma LoadedNothing(a: Spaces, bytes: Contents, cr3: nat, image: seq<byte>)
    requires SpacesInv(a) && Backed(a, bytes)
    ensures Loaded(a, bytes, bytes, cr3, image, [])
  {}

  /** Growing maps fresh frames only, which loading has not touched. */
  lemma LoadedGrows(a: Spaces, b: Spaces, more: set<Node>, before: Contents, after: Contents,
                    cr3: nat, image: seq<byte>, programs: seq<Program>)
    requires SpacesInv(a) && Backed(a, before) && (forall p | p in programs :: GoodProgram(p, image))
    requires Loaded(a, before, after, cr3, image, programs) && SegmentsMapped(a, cr3, programs)
    requires Grows(a, b, more, 7)
    ensures Backed(b, before) && SegmentsMapped(b, cr3, programs)
    ensures Loaded(b, before, after, cr3, image, programs)
  {
    StillBacked(a, b, before);
    StillBacked(a, b, after);
    forall r: nat, x: nat | x < 0x8000_0000_0000 && Mapped(b, r, x)
      ensures ByteAt(b, after, r, x) ==
        if r == cr3 then SegmentByte(image, programs, x, ByteAt(b, before, r, x)) else ByteAt(b, before, r, x)
    {
      if Mapped(a, r, x) {
        assert FrameAt(b, r, x) == FrameAt(a, r, x);
        assert ByteAt(b, after, r, x) == ByteAt(a, after, r, x);
        assert ByteAt(b, before, r, x) == ByteAt(a, before, r, x);
      } else {
        MappedFrameInUse(b, r, x);
        assert FrameAt(b, r, x) !in a.used && !Owned(a.nodes, FrameAt(b, r, x));
      }
    }
    forall f | f in before && !Owned(b.nodes, f) ensures after[f] == before[f] {
      NotOwnedBefore(a, b, more, 7, f);
    }
  }

  lemma SegmentOfMore(programs: seq<Program>, p: Program, x: nat)
    ensures Contains(p, x) ==> SegmentOf(programs + [p], x) == |programs|
    ensures !Contains(p, x) && SegmentOf(programs, x) < |programs| ==> SegmentOf(programs + [p], x) == SegmentOf(programs, x)
    ensures !Contains(p, x) && SegmentOf(programs, x) == |programs| ==> SegmentOf(programs + [p], x) == |programs| + 1
  {
    assert (programs + [p])[..|programs|] == programs;
  }

  /** The byte at `x` after one segment more, `was` being the byte before the first. */
  lemma ByteAfterMore(image: seq<byte>, programs: seq<Program>, p: Program, x: nat, was: byte, mid: byte, now: byte)
    requires (forall q | q in programs :: GoodProgram(q, image)) && GoodProgram(p, image) && Loadable(p)
    requires mid == SegmentByte(image, programs, x, was)
    requires now == if Contains(p, x) then SegmentBytes(p, image)[x - p.vaddr] else mid
    ensures forall q | q in programs + [p] :: GoodProgram(q, image)
    ensures now == SegmentByte(image, programs + [p], x, was)
  {
    SegmentOfMore(programs, p, x);
  }

  /** One segment more: it wins over the earlier ones where they overlap. */
  lemma LoadedMore(a: Spaces, before: Contents, mid: Contents, after: Contents,
                   cr3: nat, image: seq<byte>, programs: seq<Program>, p: Program)
    requires SpacesInv(a) && Backed(a, before) && (forall q | q in programs + [p] :: GoodProgram(q, image))
    requires forall q | q in programs :: GoodProgram(q, image)
    requires Loadable(p) && Loaded(a, before, mid, cr3, image, programs)
    requires Written(a, mid, after, cr3, p.vaddr, SegmentBytes(p, image))
    ensures Loaded(a, before, after, cr3, image, programs + [p])
  {
    forall r: nat, x: nat | x < 0x8000_0000_0000 && Mapped(a, r, x)
      ensures ByteAt(a, after, r, x) ==
        if r == cr3 then SegmentByte(image, programs + [p], x, ByteAt(a, before, r, x)) else ByteAt(a, before, r, x)
    {
      if r == cr3 {
        ByteAfterMore(image, programs, p, x, ByteAt(a, before, r, x), ByteAt(a, mid, r, x), ByteAt(a, after, r, x));
      }
    }
  }

  /** A segment that is not loaded changes nothing. */
  lemma LoadedSkip(a: Spaces, before: Contents, after: Contents, cr3: nat, image: seq<byte>,
                   programs: seq<Program>, p: Program)
    requires SpacesInv(a) && Backed(a, before) && (forall q | q in programs + [p] :: GoodProgram(q, image))
    requires forall q | q in programs :: GoodProgram(q, image)
    requires !Loadable(p) && Loaded(a, before, after, cr3, image, programs)
    ensures Loaded(a, before, after, cr3, image, programs + [p])
  {
    forall r: nat, x: nat | x < 0x8000_0000_0000 && Mapped(a, r, x)
      ensures ByteAt(a, after, r, x) ==
        if r == cr3 then SegmentByte(image, programs + [p], x, ByteAt(a, before, r, x)) else ByteAt(a, before, r, x)
    {
      SegmentOfMore(programs, p, x);
    }
  }

  /** What holds after the segments `done` have been loaded since `before`. */
  ghost predicate Progress(before: Spaces, a: Spaces, contents: Contents, bytes: Contents,
                           cr3: nat, image: seq<byte>, done: seq<Program>)
  {
    && SpacesInv(a) && Backed(a, contents) && (forall p | p in done :: GoodProgram(p, image))
    && Grows(before, a, AllNodes(cr3, done), 7) && SegmentsMapped(a, cr3, done)
    && Loaded(a, contents, bytes, cr3, image, done)
  }

  /** `Progress`, kept out of proofs that only pass it on. */
  ghost predicate Loading(before: Spaces, a: Spaces, contents: Contents, bytes: Contents,
                          cr3: nat, image: seq<byte>, done: seq<Program>)
  {
    Sealed(cr3) ==> Progress(before, a, contents, bytes, cr3, image, done)
  }

  lemma NoProgress(a: Spaces, bytes: Contents, cr3: nat, image: seq<byte>)
    requires SpacesInv(a) && Backed(a, bytes)
    ensures Progress(a, a, bytes, bytes, cr3, image, [])
  {
    GrowsNothing(a, 7);
    LoadedNothing(a, bytes, cr3, image);
  }

  lemma NodesMore(cr3: nat, done: seq<Program>, p: Program)
    ensures AllNodes(cr3, done + [p]) == AllNodes(cr3, done) + SegmentNodes(cr3, p)
    ensures !Loadable(p) ==> AllNodes(cr3, done + [p]) == AllNodes(cr3, done)
  {
    assert (done + [p])[..|done|] == done;
  }

  lemma ProgressSkip(before: Spaces, a: Spaces, contents: Contents, bytes: Contents,
                     cr3: nat, image: seq<byte>, done: seq<Program>, p: Program)
    requires Progress(before, a, contents, bytes, cr3, image, done) && !Loadable(p)
    ensures Progress(before, a, contents, bytes, cr3, image, done + [p])
  {
    NodesMore(cr3, done, p);
    LoadedSkip(a, contents, bytes, cr3, image, done, p);
  }

  lemma ProgressMore(before: Spaces, a: Spaces, b: Spaces, contents: Contents, mid: Contents, bytes: Contents,
                     cr3: nat, image: seq<byte>, done: seq<Program>, p: Program)
    requires SpacesInv(before) && Progress(before, a, contents, mid, cr3, image, done)
    requires Loadable(p) && GoodProgram(p, image) && Grows(a, b, SegmentNodes(cr3, p), 7)
    requires AllMapped(b, cr3, p.vaddr, p.vaddr + p.memsz) && Backed(b, mid)
    requires Written(b, mid, bytes, cr3, p.vaddr, SegmentBytes(p, image))
    ensures Progress(before, b, contents, bytes, cr3, image, done + [p])
  {
    NodesMore(cr3, done, p);
    GrowsTwice(before, a, b, AllNodes(cr3, done), SegmentNodes(cr3, p), 7);
    LoadedGrows(a, b, SegmentNodes(cr3, p), contents, mid, cr3, image, done);
    LoadedMore(b, contents, mid, bytes, cr3, image, done, p);
  }

  /** One turn of the outer loop, on top of the segments `done` loaded since `before`. */
  method LoadNext(mem: M.Memory, ghost before: Spaces, ghost contents: Contents, cr3: nat, base: nat,
                  ghost image: seq<byte>, ghost done: seq<Program>, at: nat, p: Program)
    returns (halted: bool)
    requires mem.Valid() && cr3 in mem.a.upper && SpacesInv(before) && Sound(cr3, base, image, at, p)
    requires Holds(mem.a, mem.bytes, cr3, base, image)
    requires Loading(before, mem.a, contents, mem.bytes, cr3, image, done)
    modifies mem`words, mem`a, mem`bytes, mem.ba.Repr
    ensures mem.Valid()
    ensures halted ==> mem.OutOfFrames()
    ensures !halted ==> mem.a.upper == old(mem.a).upper
    ensures !halted ==> Loading(before, mem.a, contents, mem.bytes, cr3, image, done + [p])
  {
    ghost var a, mid := mem.a, mem.bytes;
    AlwaysSealed(cr3);
    if p.kind != 1 {
      ProgressSkip(before, a, contents, mid, cr3, image, done, p);
      return false;
    }
    halted := LoadSegment(mem, cr3, base, image, at, p);
    if !halted {
      ProgressMore(before, a, mem.a, contents, mid, mem.bytes, cr3, image, done, p);
    }
  }

  lemma HighestMore(done: seq<Program>, p: Program)
    ensures Highest(done + [p]) ==
      if Loadable(p) && p.vaddr + p.memsz > Highest(done) then p.vaddr + p.memsz else Highest(done)
  {
    assert (done + [p])[..|done|] == done;
  }

  /** The update of `highest_address`, which is kept in 32 bits. */
  function Raised(highest: nat, p: Program): nat {
    if p.kind == 1 && p.vaddr + p.memsz > highest then (p.vaddr + p.memsz) % 0x1_0000_0000 else highest
  }

  /** What one turn adds; an end below 2^32 survives being kept in 32 bits. */
  lemma NextSegment(programs: seq<Program>, image: seq<byte>, i: nat)
    requires i < |programs| && forall p | p in programs :: GoodProgram(p, image)
    ensures programs[..i] + [programs[i]] == programs[..i + 1] && GoodProgram(programs[i], image)
    ensures Highest(programs[..i + 1]) == Raised(Highest(programs[..i]), programs[i])
  {
    assert programs[..i] + [programs[i]] == programs[..i + 1];
    assert programs[i] in programs;
    HighestMore(programs[..i], programs[i]);
  }

  /** The whole file: all its segments can be loaded, and none touches the buffer. */
  ghost predicate GoodFile(base: nat, image: seq<byte>) {
    && GoodHeader(image) && base + |image| <= 0x8000_0000_0000
    && (forall p | p in Programs(image) :: GoodProgram(p, image)) && Misses(Programs(image), base, |image|)
  }

  lemma SoundHeader(cr3: nat, base: nat, image: seq<byte>, i: nat)
    requires GoodFile(base, image) && i < HeaderCount(image)
    ensures HeadersAt(image) + 56 * i + 56 <= |image| && Programs(image)[i] == ProgramAt(image, HeadersAt(image) + 56 * i)
    ensures Sound(cr3, base, image, HeadersAt(image) + 56 * i, Programs(image)[i])
  {
    assert Programs(image)[i] in Programs(image);
  }

  /** The first `i` segments have been loaded from the file in the buffer. */
  ghost predicate LoadedUpTo(before: Spaces, a: Spaces, contents: Contents, bytes: Contents, cr3: nat, base: nat,
                             image: seq<byte>, i: nat, highest: nat)
  {
    && SpacesInv(before) && Backed(before, contents) && Holds(before, contents, cr3, base, image)
    && GoodFile(base, image) && i <= HeaderCount(image) && highest == Highest(Programs(image)[..i])
    && Loading(before, a, contents, bytes, cr3, image, Programs(image)[..i])
  }

  /** `LoadedUpTo`, kept out of proofs that only pass it on. */
  ghost predicate UpTo(before: Spaces, a: Spaces, contents: Contents, bytes: Contents, cr3: nat, base: nat,
                       image: seq<byte>, i: nat, highest: nat)
  {
    a.upper == before.upper && (Sealed(cr3) ==> LoadedUpTo(before, a, contents, bytes, cr3, base, image, i, highest))
  }

  lemma NothingLoaded(a: Spaces, bytes: Contents, cr3: nat, base: nat, image: seq<byte>)
    requires SpacesInv(a) && Backed(a, bytes) && Holds(a, bytes, cr3, base, image) && GoodFile(base, image)
    ensures UpTo(a, a, bytes, bytes, cr3, base, image, 0, 0)
  {
    NoProgress(a, bytes, cr3, image);
    assert Programs(image)[..0] == [];
  }

  /** What turn `i` finds in the buffer, and what it makes of the segments loaded so far. */
  lemma TurnFinds(before: Spaces, a: Spaces, contents: Contents, bytes: Contents, cr3: nat, base: nat,
                  image: seq<byte>, i: nat, highest: nat)
    requires UpTo(before, a, contents, bytes, cr3, base, image, i, highest)
    ensures SpacesInv(before) && SpacesInv(a) && Backed(a, bytes) && Holds(a, bytes, cr3, base, image)
    ensures GoodHeader(image) && i <= HeaderCount(image) && base + |image| <= 0x8000_0000_0000
    ensures Loading(before, a, contents, bytes, cr3, image, Programs(image)[..i])
    ensures i < HeaderCount(image) ==>
      Sound(cr3, base, image, HeadersAt(image) + 56 * i, ProgramAt(image, HeadersAt(image) + 56 * i))
  {
    AlwaysSealed(cr3);
    StillHolds(before, a, contents, bytes, cr3, base, image, Programs(image)[..i]);
    if i < HeaderCount(image) {
      SoundHeader(cr3, base, image, i);
    }
  }

  lemma NextProgram(base: nat, image: seq<byte>, i: nat, p: Program)
    requires GoodFile(base, image) && i < HeaderCount(image) && p == ProgramAt(image, HeadersAt(image) + 56 * i)
    ensures Programs(image)[..i] + [p] == Programs(image)[..i + 1]
    ensures Highest(Programs(image)[..i + 1]) == Raised(Highest(Programs(image)[..i]), p)
  {
    SoundHeader(0, base, image, i);
    NextSegment(Programs(image), image, i);
  }

  lemma TurnDone(before: Spaces, a: Spaces, b: Spaces, contents: Contents, mid: Contents, bytes: Contents, cr3: nat,
                 base: nat, image: seq<byte>, i: nat, highest: nat, p: Program)
    requires UpTo(before, a, contents, mid, cr3, base, image, i, highest) && b.upper == a.upper
    requires GoodHeader(image) && i < HeaderCount(image) && p == ProgramAt(image, HeadersAt(image) + 56 * i)
    requires Loading(before, b, contents, bytes, cr3, image, Programs(image)[..i] + [p])
    ensures UpTo(before, b, contents, bytes, cr3, base, image, i + 1, Raised(highest, p))
  {
    AlwaysSealed(cr3);
    NextProgram(base, image, i, p);
  }

  lemma AllLoaded(before: Spaces, a: Spaces, contents: Contents, bytes: Contents, cr3: nat, base: nat,
                  image: seq<byte>, highest: nat)
    requires GoodHeader(image) && UpTo(before, a, contents, bytes, cr3, base, image, HeaderCount(image), highest)
    ensures highest == Highest(Programs(image)) && Loading(before, a, contents, bytes, cr3, image, Programs(image))
  {
    AlwaysSealed(cr3);
    assert Programs(image)[..HeaderCount(image)] == Programs(image);
  }

  /** The header of turn `i`, read from the buffer. */
  method ReadHeader(mem: M.Memory, ghost before: Spaces, ghost contents: Contents, cr3: nat, base: nat,
                    ghost image: seq<byte>, headers: nat, i: nat, ghost was: nat) returns (p: Program)
    requires mem.Valid() && GoodHeader(image) && headers == HeadersAt(image) && i < HeaderCount(image)
    requires UpTo(before, mem.a, contents, mem.bytes, cr3, base, image, i, was)
    ensures p == ProgramAt(image, headers + 56 * i)
  {
    TurnFinds(before, mem.a, contents, mem.bytes, cr3, base, image, i, was);
    p := ReadProgram(mem, cr3, base, image, headers + 56 * i);
  }

  /** The segment of turn `i`. */
  method LoadTurn(mem: M.Memory, ghost before: Spaces, ghost contents: Contents, cr3: nat, base: nat,
                  ghost image: seq<byte>, at: nat, ghost i: nat, ghost was: nat, p: Program) returns (halted: bool)
    requires mem.Valid() && cr3 in mem.a.upper && GoodHeader(image) && i < HeaderCount(image)
    requires at == HeadersAt(image) + 56 * i && p == ProgramAt(image, at)
    requires UpTo(before, mem.a, contents, mem.bytes, cr3, base, image, i, was)
    modifies mem`words, mem`a, mem`bytes, mem.ba.Repr
    ensures mem.Valid()
    ensures halted ==> mem.OutOfFrames()
    ensures !halted ==> UpTo(before, mem.a, contents, mem.bytes, cr3, base, image, i + 1, Raised(was, p))
  {
    ghost var a, mid := mem.a, mem.bytes;
    TurnFinds(before, a, contents, mid, cr3, base, image, i, was);
    halted := LoadNext(mem, before, contents, cr3, base, image, Programs(image)[..i], at, p);
    if !halted {
      TurnDone(before, a, mem.a, contents, mid, mem.bytes, cr3, base, image, i, was, p);
    }
  }

  /** One turn of the outer loop. */
  method LoadHeader(mem: M.Memory, ghost before: Spaces, ghost contents: Contents, cr3: nat, base: nat,
                    ghost image: seq<byte>, headers: nat, i: nat, was: nat) returns (halted: bool, highest: nat)
    requires mem.Valid() && cr3 in mem.a.upper && GoodHeader(image) && headers == HeadersAt(image) && i < HeaderCount(image)
    requires UpTo(before, mem.a, contents, mem.bytes, cr3, base, image, i, was)
    modifies mem`words, mem`a, mem`bytes, mem.ba.Repr
    ensures mem.Valid()
    ensures halted ==> mem.OutOfFrames()
    ensures !halted ==> UpTo(before, mem.a, contents, mem.bytes, cr3, base, image, i + 1, highest)
  {
    var p := ReadHeader(mem, before, contents, cr3, base, image, headers, i, was);
    highest := Raised(was, p);
    halted := LoadTurn(mem, before, contents, cr3, base, image, headers + 56 * i, i, was, p);
  }

  /** `e_phnum`, which the loop reads again at each turn. */
  method ReadCount(mem: M.Memory, ghost before: Spaces, ghost contents: Contents, cr3: nat, base: nat,
                   ghost image: seq<byte>, ghost i: nat, ghost highest: nat) returns (count: nat)
    requires mem.Valid() && GoodHeader(image) && UpTo(before, mem.a, contents, mem.bytes, cr3, base, image, i, highest)
    ensures count == HeaderCount(image)
  {
    TurnFinds(before, mem.a, contents, mem.bytes, cr3, base, image, i, highest);
    count := ReadNumber(mem, cr3, base, image, 56, 2);
  }

  /** `e_entry`, read when all segments are loaded. */
  method ReadEntry(mem: M.Memory, ghost before: Spaces, ghost contents: Contents, cr3: nat, base: nat, ghost image: seq<byte>)
    returns (entry: nat)
    requires mem.Valid() && SpacesInv(before) && GoodFile(base, image)
    requires Backed(before, contents) && Holds(before, contents, cr3, base, image)
    requires Loading(before, mem.a, contents, mem.bytes, cr3, image, Programs(image))
    ensures entry == EntryPoint(image)
  {
    StillHolds(before, mem.a, contents, mem.bytes, cr3, base, image, Programs(image));
    entry := ReadNumber(mem, cr3, base, image, 24, 8);
  }

  /** The outer loop. */
  method LoadAll(mem: M.Memory, ghost before: Spaces, ghost contents: Contents, cr3: nat, base: nat,
                 ghost image: seq<byte>, headers: nat) returns (halted: bool, highest: nat)
    requires mem.Valid() && cr3 in mem.a.upper && GoodHeader(image) && headers == HeadersAt(image)
    requires UpTo(before, mem.a, contents, mem.bytes, cr3, base, image, 0, 0)
    modifies mem`words, mem`a, mem`bytes, mem.ba.Repr
    ensures mem.Valid()
    ensures halted ==> mem.OutOfFrames()
    ensures !halted ==> UpTo(before, mem.a, contents, mem.bytes, cr3, base, image, HeaderCount(image), highest)
  {
    halted, highest := false, 0;
    var count := ReadCount(mem, before, contents, cr3, base, image, 0, 0);
    var i := 0;
    while i < count
      invariant 0 <= i <= count == HeaderCount(image) && mem.Valid()
      invariant UpTo(before, mem.a, contents, mem.bytes, cr3, base, image, i, highest)
      decreases HeaderCount(image) - i
    {
      halted, highest := LoadHeader(mem, before, contents, cr3, base, image, headers, i, highest);
      if halted { return; }
      i := i + 1;
      count := ReadCount(mem, before, contents, cr3, base, image, i, highest);
    }
  }

  /**
    `map_elf`: loads the segments in order and returns the greatest end, kept in 32
    bits.  The file `image` is in memory at `base`; everything is read from there when
    the code does so.
   */
  method MapElf(mem: M.Memory, cr3: nat, base: nat, ghost image: seq<byte>) returns (halted: bool, highest: nat)
    requires mem.Valid() && cr3 in mem.a.upper && GoodFile(base, image) && Holds(mem.a, mem.bytes, cr3, base, image)
    modifies mem`words, mem`a, mem`bytes, mem.ba.Repr
    ensures mem.Valid()
    ensures halted ==> mem.OutOfFrames()
    ensures !halted ==> highest == Highest(Programs(image)) && mem.a.upper == old(mem.a).upper
    ensures !halted ==> Loading(old(mem.a), mem.a, old(mem.bytes), mem.bytes, cr3, image, Programs(image))
  {
    ghost var before, contents := mem.a, mem.bytes;
    NothingLoaded(before, contents, cr3, base, image);
    var headers := ReadNumber(mem, cr3, base, image, 32, 8);
    halted, highest := LoadAll(mem, before, contents, cr3, base, image, headers);
    if halted { return; }
    AllLoaded(before, mem.a, contents, mem.bytes, cr3, base, image, highest);
  }

  lemma LoadingGrows(before: Spaces, a: Spaces, contents: Contents, bytes: Contents,
                     cr3: nat, image: seq<byte>, done: seq<Program>)
    requires Loading(before, a, contents, bytes, cr3, image, done)
    ensures Grows(before, a, AllNodes(cr3, done), 7)
  {
    AlwaysSealed(cr3);
  }

  ghost predicate DisjointSegments(programs: seq<Program>) {
    forall i: nat, j: nat, x: nat {:trigger Contains(programs[i], x), Contains(programs[j], x)} |
      i < |programs| && j < |programs| && Contains(programs[i], x) && Contains(programs[j], x) :: i == j
  }

  /**
    Loading round trip: when segments do not overlap, every byte of every segment is
    mapped and reads back as the file's byte, or as zero past the file's part.
   */
  lemma SegmentsReadBack(before: Spaces, a: Spaces, contents: Contents, bytes: Contents,
                         cr3: nat, image: seq<byte>, programs: seq<Program>, k: nat, x: nat)
    requires Loading(before, a, contents, bytes, cr3, image, programs) && DisjointSegments(programs)
    requires k < |programs| && programs[k].kind == 1 && programs[k].vaddr <= x < programs[k].vaddr + programs[k].memsz
    ensures SpacesInv(a) && Backed(a, bytes) && Mapped(a, cr3, x) && GoodProgram(programs[k], image)
    ensures ByteAt(a, bytes, cr3, x) == FileByte(programs[k], image, x - programs[k].vaddr)
    ensures var p, at := programs[k], x - programs[k].vaddr;
      && (at < p.filesz ==> p.offset + at < |image|)
      && ByteAt(a, bytes, cr3, x) == if at < p.filesz then image[p.offset + at] else 0
  {
    AlwaysSealed(cr3);
    assert programs[k] in programs && GoodProgram(programs[k], image);
    assert Mapped(a, cr3, x);
    assert SegmentOf(programs, x) == k by {
      assert Contains(programs[k], x);
    }
  }

  /** A byte that was mapped before loading, and its value at any point of loading. */
  lemma LoadingAnyByte(before: Spaces, a: Spaces, contents: Contents, bytes: Contents,
                       cr3: nat, image: seq<byte>, done: seq<Program>, r: nat, x: nat)
    requires SpacesInv(before) && Backed(before, contents) && x < 0x8000_0000_0000
    requires Loading(before, a, contents, bytes, cr3, image, done) && Mapped(before, r, x)
    ensures SpacesInv(a) && Backed(a, bytes) && Mapped(a, r, x)
    ensures forall p | p in done :: GoodProgram(p, image)
    ensures ByteAt(a, bytes, r, x) ==
      var was := ByteAt(before, contents, r, x);
      if r == cr3 then SegmentByte(image, done, x, was) else was
  {
    AlwaysSealed(cr3);
    assert Mapped(a, r, x);
    assert FrameAt(a, r, x) == FrameAt(before, r, x);
    assert ByteAt(a, contents, r, x) == ByteAt(before, contents, r, x);
  }

  /** The same in the space loaded into. */
  lemma LoadingByte(before: Spaces, a: Spaces, contents: Contents, bytes: Contents,
                    cr3: nat, image: seq<byte>, done: seq<Program>, x: nat)
    requires SpacesInv(before) && Backed(before, contents) && x < 0x8000_0000_0000
    requires Loading(before, a, contents, bytes, cr3, image, done) && Mapped(before, cr3, x)
    ensures SpacesInv(a) && Backed(a, bytes) && Mapped(a, cr3, x)
    ensures forall p | p in done :: GoodProgram(p, image)
    ensures ByteAt(a, bytes, cr3, x) == SegmentByte(image, done, x, ByteAt(before, contents, cr3, x))
  {
    LoadingAnyByte(before, a, contents, bytes, cr3, image, done, cr3, x);
  }

  /** Bytes outside the segments, in this space and in all others, are left alone. */
  lemma OutsideSegments(before: Spaces, a: Spaces, contents: Contents, bytes: Contents,
                        cr3: nat, image: seq<byte>, programs: seq<Program>, r: nat, x: nat)
    requires SpacesInv(before) && Backed(before, contents) && x < 0x8000_0000_0000
    requires Loading(before, a, contents, bytes, cr3, image, programs)
    requires Mapped(before, r, x)
    requires r == cr3 ==> forall p | p in programs && p.kind == 1 :: x < p.vaddr || p.vaddr + p.memsz <= x
    ensures SpacesInv(a) && Backed(a, bytes) && Mapped(a, r, x)
    ensures ByteAt(a, bytes, r, x) == ByteAt(before, contents, r, x)
  {
    AlwaysSealed(cr3);
    assert Mapped(a, r, x);
    assert r == cr3 ==> SegmentOf(programs, x) == |programs|;
    assert FrameAt(a, r, x) == FrameAt(before, r, x);
  }
}
