/** Headers laid out field by field, and what `Elf` reads of them. */
module ElfLayout {

  import opened Bytes
  import opened Elf

  /** The fields of a file header, in order; the 16 bytes of `e_ident` count as one number. */
  datatype FileHeader = FileHeader(
    ident: nat, kind: nat, machine: nat, version: nat, entry: nat, phoff: nat, shoff: nat,
    flags: nat, ehsize: nat, phentsize: nat, phnum: nat, shentsize: nat, shnum: nat, shstrndx: nat)

  /** The fields of a program header, in order. */
  datatype ProgramHeader = ProgramHeader(
    kind: nat, flags: nat, offset: nat, vaddr: nat, paddr: nat, filesz: nat, memsz: nat, align: nat)

  /** A number and how many bytes it takes. */
  datatype Field = Field(value: nat, width: nat)

  function FileFields(h: FileHeader): seq<Field> {
    [Field(h.ident, 16), Field(h.kind, 2), Field(h.machine, 2), Field(h.version, 4),
     Field(h.entry, 8), Field(h.phoff, 8), Field(h.shoff, 8), Field(h.flags, 4),
     Field(h.ehsize, 2), Field(h.phentsize, 2), Field(h.phnum, 2),
     Field(h.shentsize, 2), Field(h.shnum, 2), Field(h.shstrndx, 2)]
  }

  function ProgramFields(p: ProgramHeader): seq<Field> {
    [Field(p.kind, 4), Field(p.flags, 4), Field(p.offset, 8), Field(p.vaddr, 8),
     Field(p.paddr, 8), Field(p.filesz, 8), Field(p.memsz, 8), Field(p.align, 8)]
  }

  /** Packed: no bytes between fields. */
  function Packed(fields: seq<Field>): seq<byte> {
    if fields == [] then [] else Stored(fields[0].value, fields[0].width) + Packed(fields[1..])
  }

  ghost predicate Fit(fields: seq<Field>) {
    forall i | 0 <= i < |fields| :: fields[i].value < Pow256(fields[i].width)
  }

  /** Where field `k` starts. */
  function Offset(fields: seq<Field>, k: nat): nat
    requires k <= |fields|
  {
    if k == 0 then 0 else fields[0].width + Offset(fields[1..], k - 1)
  }

  lemma {:induction false} StoredSize(n: nat, k: nat)
    ensures |Stored(n, k)| == k
  {
    if k > 0 {
      StoredSize(n / 0x100, k - 1);
    }
  }

  /** Every field is read back from its place. */
  lemma {:induction false} FieldReadBack(fields: seq<Field>, k: nat)
    requires Fit(fields) && k < |fields|
    ensures Offset(fields, k) + fields[k].width <= |Packed(fields)|
    ensures Number(Packed(fields)[Offset(fields, k)..Offset(fields, k) + fields[k].width]) == fields[k].value
  {
    var first, rest := Stored(fields[0].value, fields[0].width), Packed(fields[1..]);
    StoredSize(fields[0].value, fields[0].width);
    if k == 0 {
      NumberRoundTrip(fields[0].value, fields[0].width);
      assert (first + rest)[..fields[0].width] == first;
    } else {
      FieldReadBack(fields[1..], k - 1);
      var at, size := Offset(fields[1..], k - 1), fields[k].width;
      assert (first + rest)[|first| + at..|first| + at + size] == rest[at..at + size];
    }
  }

  /** Offsets grow by the widths. */
  lemma {:induction false} OffsetNext(fields: seq<Field>, k: nat)
    requires k < |fields|
    ensures Offset(fields, k + 1) == Offset(fields, k) + fields[k].width
  {
    if k > 0 {
      OffsetNext(fields[1..], k - 1);
    }
  }

  /** Where the fields of the file header start that the loader reads. */
  lemma FileOffsets(h: FileHeader)
    ensures var f := FileFields(h); Offset(f, 4) == 24 && Offset(f, 5) == 32 && Offset(f, 10) == 56
  {
    var f := FileFields(h);
    OffsetNext(f, 0);
    OffsetNext(f, 1);
    OffsetNext(f, 2);
    OffsetNext(f, 3);
    OffsetNext(f, 4);
    OffsetNext(f, 5);
    OffsetNext(f, 6);
    OffsetNext(f, 7);
    OffsetNext(f, 8);
    OffsetNext(f, 9);
  }

  lemma ProgramOffsets(p: ProgramHeader)
    ensures var f := ProgramFields(p);
      Offset(f, 0) == 0 && Offset(f, 2) == 8 && Offset(f, 3) == 16 && Offset(f, 5) == 32 && Offset(f, 6) == 40
  {
    var f := ProgramFields(p);
    OffsetNext(f, 0);
    OffsetNext(f, 1);
    OffsetNext(f, 2);
    OffsetNext(f, 3);
    OffsetNext(f, 4);
    OffsetNext(f, 5);
  }

  /** The header's bytes are at the start of the file, those of program header `i` where it says. */
  ghost predicate LaidOut(image: seq<byte>, h: FileHeader, ps: seq<ProgramHeader>) {
    && Fit(FileFields(h)) && h.phnum == |ps| && 64 <= |image| && image[..64] == Packed(FileFields(h))
    && h.phoff + 56 * |ps| <= |image|
    && forall i | 0 <= i < |ps| ::
         Fit(ProgramFields(ps[i])) && image[h.phoff + 56 * i..h.phoff + 56 * i + 56] == Packed(ProgramFields(ps[i]))
  }

  lemma PartOfPart(image: seq<byte>, from: nat, size: nat, at: nat, n: nat, part: seq<byte>)
    requires from + size <= |image| && at + n <= size && image[from..from + size] == part
    ensures part[at..at + n] == image[from + at..from + at + n]
  {
    var a, b := part[at..at + n], image[from + at..from + at + n];
    forall i | 0 <= i < n ensures a[i] == b[i] {
      assert image[from..from + size][at + i] == image[from + (at + i)];
    }
  }

  lemma ReadField(image: seq<byte>, from: nat, size: nat, fields: seq<Field>, k: nat, at: nat)
    requires from + size <= |image| && Fit(fields) && k < |fields| && Offset(fields, k) == at
    requires image[from..from + size] == Packed(fields)
    ensures from + at + fields[k].width <= |image|
    ensures Number(image[from + at..from + at + fields[k].width]) == fields[k].value
  {
    FieldReadBack(fields, k);
    PartOfPart(image, from, size, at, fields[k].width, Packed(fields));
  }

  lemma ProgramReadBack(image: seq<byte>, at: nat, p: ProgramHeader)
    requires at + 56 <= |image| && Fit(ProgramFields(p)) && image[at..at + 56] == Packed(ProgramFields(p))
    ensures ProgramAt(image, at) == Program(p.kind, p.offset, p.vaddr, p.filesz, p.memsz)
  {
    var f := ProgramFields(p);
    ProgramOffsets(p);
    ReadField(image, at, 56, f, 0, 0);
    ReadField(image, at, 56, f, 2, 8);
    ReadField(image, at, 56, f, 3, 16);
    ReadField(image, at, 56, f, 5, 32);
    ReadField(image, at, 56, f, 6, 40);
  }

  /** From a file laid out like that the loader reads exactly the entry point and the program headers put in. */
  lemma HeadersReadBack(image: seq<byte>, h: FileHeader, ps: seq<ProgramHeader>)
    requires LaidOut(image, h, ps)
    ensures GoodHeader(image) && EntryPoint(image) == h.entry && |Programs(image)| == |ps|
    ensures forall i | 0 <= i < |ps| ::
      Programs(image)[i] == Program(ps[i].kind, ps[i].offset, ps[i].vaddr, ps[i].filesz, ps[i].memsz)
  {
    var f := FileFields(h);
    FileOffsets(h);
    assert image[0..64] == image[..64];
    ReadField(image, 0, 64, f, 4, 24);
    ReadField(image, 0, 64, f, 5, 32);
    ReadField(image, 0, 64, f, 10, 56);
    forall i | 0 <= i < |ps|
      ensures ProgramAt(image, h.phoff + 56 * i) == Program(ps[i].kind, ps[i].offset, ps[i].vaddr, ps[i].filesz, ps[i].memsz)
    {
      ProgramReadBack(image, h.phoff + 56 * i, ps[i]);
    }
  }
}
