/**
  The reader of the initial file system: an archive in the "ustar Interchange Format"
  of the pax utility section of IEEE Std 1003.1, walked header by header.
 */
module Ustar {

  import opened Bytes
  import opened Integers

  // -- numbers ----------------------------------------------------------------

  /** The number that digits in base 8 stand for; bytes that are no digits count for their distance from '0'. */
  function Octal(s: seq<byte>): int {
    if s == [] then 0 else 8 * Octal(s[..|s| - 1]) + s[|s| - 1] as int - 48
  }

  lemma Wraps(n: int, d: int)
    ensures Int32(Int32(8 * Int32(n)) + d) == Int32(8 * n + d)
  {
    var k := (n + 0x8000_0000) / 0x1_0000_0000;
    assert Int32(n) == n - k * 0x1_0000_0000;
    Multiple(8 * n, -8 * k);
    Multiple(8 * n + d, -((8 * n + 0x8000_0000) / 0x1_0000_0000));
    assert Int32(8 * n) == 8 * n - (8 * n + 0x8000_0000) / 0x1_0000_0000 * 0x1_0000_0000;
  }

  lemma Multiple(n: int, k: int)
    ensures Int32(n + k * 0x1_0000_0000) == Int32(n)
  {}

  /** `oct2bin`, in 32-bit arithmetic. */
  method Oct2Bin(s: seq<byte>) returns (n: int)
    ensures n == Int32(Octal(s))
  {
    n := 0;
    var i := 0;
    while i < |s|
      invariant 0 <= i <= |s| && n == Int32(Octal(s[..i]))
    {
      assert s[..i + 1][..i] == s[..i];
      Wraps(Octal(s[..i]), s[i] as int - 48);
      n := Int32(n * 8);
      n := Int32(n + (s[i] as int - 48));
      i := i + 1;
    }
    assert s[..i] == s;
  }

  /** C's division, which rounds towards zero. */
  function Truncated(a: int, b: nat): int
    requires b > 0
  {
    if a >= 0 then a / b else -(-a / b)
  }

  // -- walking an archive -----------------------------------------------------

  /** "ustar". */
  function MagicBytes(): seq<byte> {
    [0x75, 0x73, 0x74, 0x61, 0x72]
  }

  predicate Magic(a: seq<byte>, ptr: nat)
    requires ptr + 512 <= |a|
  {
    a[ptr + 257..ptr + 262] == MagicBytes()
  }

  /** The comparison of the name from its second byte on, terminating zero included. */
  predicate NameMatches(a: seq<byte>, ptr: nat, filename: seq<byte>)
    requires ptr + 512 <= |a| && |filename| <= 510
  {
    a[ptr + 1..ptr + 2 + |filename|] == filename + [0]
  }

  function SizeAt(a: seq<byte>, ptr: nat): int
    requires ptr + 512 <= |a|
  {
    Int32(Octal(a[ptr + 124..ptr + 135]))
  }

  /** `(((filesize + 511) / 512) + 1) * 512` in `int`s: how far the next header is. */
  function Skip(size: int): int {
    Int32(Int32(Truncated(Int32(size + 511), 512) + 1) * 512)
  }

  /** The walk stays inside the archive and goes forward until it stops. */
  ghost predicate Walkable(a: seq<byte>, ptr: nat, filename: seq<byte>)
    requires |filename| <= 510
    decreases |a| - ptr
  {
    && ptr + 512 <= |a|
    && (Magic(a, ptr) && !NameMatches(a, ptr, filename) ==>
          Skip(SizeAt(a, ptr)) > 0 && Walkable(a, ptr + Skip(SizeAt(a, ptr)), filename))
  }

  /** -1 for a null name; 0 when there is no such entry; else the size, and where the content starts. */
  datatype Lookup = NullName | Missing | Hit(size: int, content: nat)

  ghost function Search(a: seq<byte>, ptr: nat, filename: seq<byte>): Lookup
    requires |filename| <= 510 && Walkable(a, ptr, filename)
    decreases |a| - ptr
  {
    if !Magic(a, ptr) then Missing
    else if NameMatches(a, ptr, filename) then Hit(SizeAt(a, ptr), ptr + 512)
    else Search(a, ptr + Skip(SizeAt(a, ptr)), filename)
  }

  datatype Name = Null | Path(bytes: seq<byte>)

  /** What one header decides. */
  lemma SearchStep(a: seq<byte>, ptr: nat, filename: seq<byte>)
    requires |filename| <= 510 && Walkable(a, ptr, filename)
    ensures !Magic(a, ptr) ==> Search(a, ptr, filename) == Missing
    ensures Magic(a, ptr) && NameMatches(a, ptr, filename) ==> Search(a, ptr, filename) == Hit(SizeAt(a, ptr), ptr + 512)
    ensures Magic(a, ptr) && !NameMatches(a, ptr, filename) ==>
      && Skip(SizeAt(a, ptr)) > 0 && Walkable(a, ptr + Skip(SizeAt(a, ptr)), filename)
      && Search(a, ptr, filename) == Search(a, ptr + Skip(SizeAt(a, ptr)), filename)
  {}

  /** The size field, read at the start of each turn. */
  method ReadSize(archive: seq<byte>, ptr: nat) returns (filesize: int)
    requires ptr + 512 <= |archive|
    ensures filesize == SizeAt(archive, ptr)
  {
    filesize := Oct2Bin(archive[ptr + 0x7c..ptr + 0x7c + 11]);
  }

  /** The walk of `initramfs_lookup`, from header to header. */
  method WalkHeaders(archive: seq<byte>, filename: seq<byte>) returns (r: Lookup)
    requires |filename| <= 510 && Walkable(archive, 0, filename)
    ensures r == Search(archive, 0, filename)
  {
    var ptr := 0;
    while Magic(archive, ptr)
      invariant 0 <= ptr && Walkable(archive, ptr, filename)
      invariant Search(archive, ptr, filename) == Search(archive, 0, filename)
      decreases |archive| - ptr
    {
      SearchStep(archive, ptr, filename);
      var filesize := ReadSize(archive, ptr);
      if NameMatches(archive, ptr, filename) {
        return Hit(filesize, ptr + 512);
      }
      ptr := ptr + Skip(filesize);
    }
    SearchStep(archive, ptr, filename);
    return Missing;
  }

  /** `initramfs_lookup`. */
  method InitramfsLookup(archive: seq<byte>, filename: Name) returns (r: Lookup)
    requires filename.Path? ==> |filename.bytes| <= 510 && Walkable(archive, 0, filename.bytes)
    ensures r == if filename.Null? then NullName else Search(archive, 0, filename.bytes)
  {
    if filename.Null? {
      return NullName;
    }
    r := WalkHeaders(archive, filename.bytes);
  }

  // -- encoding ---------------------------------------------------------------

  /** A file and the header fields the reader does not look at: 24, 1, 121 and 250 bytes. */
  datatype File = File(name: seq<byte>, mode: seq<byte>, sizeEnd: byte, middle: seq<byte>, tail: seq<byte>, content: seq<byte>)

  /** What the format allows; eleven octal digits hold sizes below 2^33. */
  predicate GoodFile(f: File) {
    && 1 <= |f.name| <= 100 && (forall i | 0 <= i < |f.name| :: f.name[i] != 0)
    && |f.mode| == 24 && f.mode[0] != 0 && |f.middle| == 121 && |f.tail| == 250
    && |f.content| < 0x2_0000_0000
  }

  /** `k` digits in base 8, highest first. */
  function OctalDigits(n: nat, k: nat): (s: seq<byte>)
    ensures |s| == k
  {
    if k == 0 then [] else OctalDigits(n / 8, k - 1) + [48 + n % 8]
  }

  function Pow8(k: nat): nat {
    if k == 0 then 1 else 8 * Pow8(k - 1)
  }

  lemma {:induction false} OctalRoundTrip(n: nat, k: nat)
    requires n < Pow8(k)
    ensures Octal(OctalDigits(n, k)) == n
  {
    if k > 0 {
      OctalRoundTrip(n / 8, k - 1);
      assert OctalDigits(n, k)[..k - 1] == OctalDigits(n / 8, k - 1);
    }
  }

  /** Digits 1750 are 8^3 + 7 * 8^2 + 5 * 8, as their codes. */
  lemma OctalExample()
    ensures Octal([49, 55, 53, 48]) == 1000 && OctalDigits(1000, 4) == [49, 55, 53, 48]
  {
    assert [49, 55, 53, 48][..3] == [49, 55, 53] && [49, 55, 53][..2] == [49, 55] && [49, 55][..1] == [49];
    assert Octal([49]) == 1 && Octal([49, 55]) == 15 && Octal([49, 55, 53]) == 125;
    assert OctalDigits(1, 1) == [49] && OctalDigits(15, 2) == [49] + [55] && OctalDigits(125, 3) == [49, 55] + [53];
  }

  function HeaderByte(f: File, k: nat): byte
    requires GoodFile(f) && k < 512
  {
    if k < |f.name| then f.name[k]
    else if k < 100 then 0
    else if k < 124 then f.mode[k - 100]
    else if k < 135 then OctalDigits(|f.content|, 11)[k - 124]
    else if k == 135 then f.sizeEnd
    else if k < 257 then f.middle[k - 136]
    else if k < 262 then MagicBytes()[k - 257]
    else f.tail[k - 262]
  }

  function Header(f: File): (h: seq<byte>)
    requires GoodFile(f)
    ensures |h| == 512
  {
    seq(512, k requires 0 <= k < 512 => HeaderByte(f, k))
  }

  /** The bytes that fill the last block of the content. */
  function Padding(size: nat): seq<byte> {
    seq((512 - size % 512) % 512, _ => 0)
  }

  function Entry(f: File): seq<byte>
    requires GoodFile(f)
  {
    Header(f) + f.content + Padding(|f.content|)
  }

  /** All entries, and two blocks of zeros. */
  function Encode(files: seq<File>): seq<byte>
    requires forall f | f in files :: GoodFile(f)
  {
    if files == [] then seq(1024, _ => 0) else Entry(files[0]) + Encode(files[1..])
  }

  /** Where the standard puts the fields the reader looks at. */
  lemma HeaderLayout(f: File)
    requires GoodFile(f)
    ensures forall k | 0 <= k < 100 :: Header(f)[k] == if k < |f.name| then f.name[k] else 0
    ensures forall k | 0 <= k < 11 :: Header(f)[124 + k] == OctalDigits(|f.content|, 11)[k]
    ensures Header(f)[257] == 0x75 && Header(f)[258] == 0x73 && Header(f)[259] == 0x74
    ensures Header(f)[260] == 0x61 && Header(f)[261] == 0x72
  {}

  /** The header, the content, and what fills its last block. */
  lemma EntryLayout(f: File)
    requires GoodFile(f)
    ensures |Entry(f)| % 512 == 0 && 512 + |f.content| <= |Entry(f)| < 1024 + |f.content|
    ensures Entry(f)[..512] == Header(f) && Entry(f)[512..512 + |f.content|] == f.content
  {
    var n := |f.content|;
    assert (512 + n + (512 - n % 512) % 512) % 512 == 0;
  }

  // -- what the reader finds in an encoded archive ------------------------------

  /** The archive has entry `f` at `ptr`. */
  ghost predicate EntryAt(a: seq<byte>, ptr: nat, f: File)
    requires GoodFile(f)
  {
    ptr + |Entry(f)| <= |a| && a[ptr..ptr + |Entry(f)|] == Entry(f)
  }

  lemma HeaderBytes(a: seq<byte>, ptr: nat, f: File)
    requires GoodFile(f) && EntryAt(a, ptr, f)
    ensures ptr + 512 + |f.content| <= |a| && a[ptr + 512..ptr + 512 + |f.content|] == f.content
    ensures forall k | 0 <= k < 512 :: a[ptr + k] == Header(f)[k]
  {
    var e := Entry(f);
    assert e[..512] == Header(f) && e[512..512 + |f.content|] == f.content;
    forall k | 0 <= k < |e| ensures a[ptr + k] == e[k] {
      assert a[ptr..ptr + |e|][k] == a[ptr + k];
    }
  }

  lemma EntryFields(a: seq<byte>, ptr: nat, f: File)
    requires GoodFile(f) && EntryAt(a, ptr, f)
    ensures ptr + 512 <= |a| && Magic(a, ptr) && SizeAt(a, ptr) == Int32(|f.content|)
  {
    HeaderBytes(a, ptr, f);
    forall k | 0 <= k < 5 ensures a[ptr + 257..ptr + 262][k] == MagicBytes()[k] {
      assert a[ptr + 257..ptr + 262][k] == a[ptr + (257 + k)];
    }
    forall k | 0 <= k < 11 ensures a[ptr + 124..ptr + 135][k] == OctalDigits(|f.content|, 11)[k] {
      assert a[ptr + 124..ptr + 135][k] == a[ptr + (124 + k)];
    }
    assert a[ptr + 124..ptr + 135] == OctalDigits(|f.content|, 11);
    assert Pow8(11) == 0x2_0000_0000;
    OctalRoundTrip(|f.content|, 11);
  }

  /** Sizes for which the sum and the product in the skip fit an `int`. */
  predicate Skippable(f: File) {
    |f.content| <= 0x7fff_fc00
  }

  lemma SkipOf(n: nat)
    requires n <= 0x7fff_fc00
    ensures Skip(n) == 512 + n + (512 - n % 512) % 512
  {
    var q, r := n / 512, n % 512;
    assert n == 512 * q + r;
    assert (n + 511) / 512 == if r == 0 then q else q + 1;
    assert (512 - r) % 512 == if r == 0 then 0 else 512 - r;
  }

  /**
    The skip leads just behind the entry exactly for files of at most 2^31 - 1024
    bytes.  It fails to go forward exactly for those whose size, modulo 2^32, is above
    that and at most 2^32 - 1023; for all others it goes forward, to somewhere inside
    the file.
   */
  lemma SkipExactlyWhen(f: File)
    requires GoodFile(f)
    ensures Skip(Int32(|f.content|)) == |Entry(f)| <==> Skippable(f)
    ensures Skip(Int32(|f.content|)) <= 0 <==> 0x7fff_fc00 < |f.content| % 0x1_0000_0000 <= 0xffff_fc01
    ensures !Skippable(f) ==> Skip(Int32(|f.content|)) < |Entry(f)|
  {
    var n := |f.content|;
    assert |Entry(f)| == 512 + n + (512 - n % 512) % 512;
    SkipSign(n);
    if Skippable(f) {
      SkipOf(n);
    }
  }

  lemma ResidueCounts(n: nat)
    ensures Int32(n) == Int32(n % 0x1_0000_0000)
  {}

  /** What the size says modulo 2^32 decides where the skip leads. */
  lemma SkipSign(n: nat)
    ensures Skip(Int32(n)) <= 0 <==> 0x7fff_fc00 < n % 0x1_0000_0000 <= 0xffff_fc01
    ensures Skip(Int32(n)) <= 512 + n % 0x1_0000_0000 + 511
    ensures n % 0x1_0000_0000 > 0x7fff_fc00 ==> Skip(Int32(n)) <= 512
  {
    ResidueCounts(n);
    SkipOfResidue(n % 0x1_0000_0000);
  }

  lemma SkipOfResidue(r: nat)
    requires r < 0x1_0000_0000
    ensures Skip(Int32(r)) <= 0 <==> 0x7fff_fc00 < r <= 0xffff_fc01
    ensures Skip(Int32(r)) <= 512 + r + 511
    ensures r > 0x7fff_fc00 ==> Skip(Int32(r)) <= 512
  {
    if r <= 0x7fff_fc00 {
      SkipOf(r);
    } else if r < 0x8000_0000 {
      SkipTooFar(r);
    } else {
      assert Int32(r) == r - 0x1_0000_0000;
      SkipNegative(r - 0x1_0000_0000);
    }
  }

  lemma SkipNegative(m: int)
    requires -0x8000_0000 <= m < 0
    ensures Skip(m) <= 0 <==> m <= -1023
    ensures Skip(m) <= 512
  {
    var d := Truncated(m + 511, 512);
    assert Int32(m + 511) == m + 511;
    assert -0x40_0000 <= d <= 0 && (d <= -1 <==> m <= -1023);
    assert Int32(d + 1) == d + 1 && Int32((d + 1) * 512) == (d + 1) * 512;
  }

  /** A file of 2^32 + 5 bytes is taken for one of 5, and the walk lands inside its content. */
  lemma SkipShortExample()
    ensures Int32(0x1_0000_0005) == 5 && Skip(5) == 1024
  {
    SkipOf(5);
  }

  lemma SkipTooFar(n: nat)
    requires 0x7fff_fc00 < n < 0x8000_0000
    ensures Skip(n) <= 0
  {
    if n + 511 < 0x8000_0000 {
      assert (n + 511) / 512 == 0x3f_ffff;
    } else {
      var m := Int32(n + 511);
      assert m == n + 511 - 0x1_0000_0000;
      assert -m / 512 >= 0x3f_fffe;
    }
  }

  /** From a file of 2^31 - 1023 bytes the walk goes back by 2^31. */
  lemma SkipBackExample()
    ensures Skip(0x7fff_fc01) == -0x8000_0000
  {
    assert (0x7fff_fc01 + 511) / 512 == 0x3f_ffff;
  }

  /** An entry answers to what follows the first byte of its name, unless the name fills its whole field. */
  predicate AnswersTo(f: File, filename: seq<byte>) {
    |f.name| <= 99 && f.name != [] && f.name[1..] == filename
  }

  lemma NameMatchesExactlyWhen(a: seq<byte>, ptr: nat, f: File, filename: seq<byte>)
    requires GoodFile(f) && EntryAt(a, ptr, f) && |filename| <= 99
    requires forall i | 0 <= i < |filename| :: filename[i] != 0
    ensures ptr + 512 <= |a|
    ensures NameMatches(a, ptr, filename) <==> AnswersTo(f, filename)
    ensures AnswersTo(f, filename) <==> |f.name| <= 99 && f.name[1..] == filename
  {
    HeaderBytes(a, ptr, f);
    var n, stored, wanted := |filename|, a[ptr + 1..ptr + 2 + |filename|], filename + [0];
    forall k | 0 <= k <= n ensures stored[k] == Header(f)[k + 1] {
      assert stored[k] == a[ptr + (k + 1)];
    }
    if |f.name| <= n {
      assert stored[|f.name| - 1] == 0 != wanted[|f.name| - 1];
    }
    assert |f.name| == 100 && n == 99 ==> stored[n] == f.mode[0];
    if stored == wanted {
      assert Header(f)[n + 1] == stored[n] == 0;
      forall k | 0 <= k < n ensures f.name[1..][k] == filename[k] {
        assert stored[k] == wanted[k];
      }
      assert f.name[1..] == filename;
    }
    if AnswersTo(f, filename) {
      forall k | 0 <= k <= n ensures stored[k] == wanted[k] {}
    }
  }

  /** The archive is what comes before `ptr` and the encoding of `files`. */
  ghost predicate EncodedAt(a: seq<byte>, ptr: nat, files: seq<File>)
    requires forall f | f in files :: GoodFile(f)
  {
    ptr + |Encode(files)| == |a| && a[ptr..] == Encode(files)
  }

  lemma FirstEntry(a: seq<byte>, ptr: nat, files: seq<File>)
    requires (forall f | f in files :: GoodFile(f)) && files != [] && EncodedAt(a, ptr, files)
    ensures EntryAt(a, ptr, files[0]) && EncodedAt(a, ptr + |Entry(files[0])|, files[1..])
  {
    var e, rest := Entry(files[0]), Encode(files[1..]);
    assert a[ptr..] == e + rest;
    assert a[ptr..ptr + |e|] == a[ptr..][..|e|] == e;
    assert a[ptr + |e|..] == a[ptr..][|e|..] == rest;
  }

  lemma LastBlock(a: seq<byte>, ptr: nat)
    requires EncodedAt(a, ptr, [])
    ensures ptr + 512 <= |a| && !Magic(a, ptr)
  {
    assert a[ptr..][257] == 0 && a[ptr + 257..ptr + 262][0] == a[ptr..][257];
  }

  /** The first file that answers to the name, or |files|. */
  function FirstAnswer(files: seq<File>, filename: seq<byte>): (i: nat)
    ensures i <= |files| && (i < |files| ==> AnswersTo(files[i], filename))
    ensures forall j | 0 <= j < i :: !AnswersTo(files[j], filename)
  {
    if files == [] || AnswersTo(files[0], filename) then 0 else 1 + FirstAnswer(files[1..], filename)
  }

  /** `r` is file `f`: its size as an `int`, and the place of its content. */
  ghost predicate Finds(a: seq<byte>, r: Lookup, f: File) {
    && r.Hit? && r.size == Int32(|f.content|)
    && r.content + |f.content| <= |a| && a[r.content..r.content + |f.content|] == f.content
  }

  /**
    Round trip: in the encoding of any list of files, whatever their contents and
    other header fields hold, the lookup finds the first file that answers to the
    name, and misses when there is none; the files in front need a size it can skip.
   */
  lemma {:induction false} LookupFindsFirst(a: seq<byte>, ptr: nat, files: seq<File>, filename: seq<byte>)
    requires (forall f | f in files :: GoodFile(f)) && EncodedAt(a, ptr, files)
    requires |filename| <= 99 && forall i | 0 <= i < |filename| :: filename[i] != 0
    requires forall j | 0 <= j < FirstAnswer(files, filename) :: Skippable(files[j])
    ensures Walkable(a, ptr, filename)
    ensures FirstAnswer(files, filename) == |files| ==> Search(a, ptr, filename) == Missing
    ensures FirstAnswer(files, filename) < |files| ==>
      Finds(a, Search(a, ptr, filename), files[FirstAnswer(files, filename)])
    decreases |files|
  {
    if files == [] {
      LastBlock(a, ptr);
    } else {
      FirstEntry(a, ptr, files);
      EntryFields(a, ptr, files[0]);
      NameMatchesExactlyWhen(a, ptr, files[0], filename);
      if AnswersTo(files[0], filename) {
        HeaderBytes(a, ptr, files[0]);
      } else {
        RestFinds(a, ptr, files, filename);
      }
    }
  }

  lemma RestFinds(a: seq<byte>, ptr: nat, files: seq<File>, filename: seq<byte>)
    requires (forall f | f in files :: GoodFile(f)) && files != [] && EncodedAt(a, ptr, files)
    requires |filename| <= 99 && forall i | 0 <= i < |filename| :: filename[i] != 0
    requires !AnswersTo(files[0], filename)
    requires forall j | 0 <= j < FirstAnswer(files, filename) :: Skippable(files[j])
    requires ptr + 512 <= |a| && Magic(a, ptr) && SizeAt(a, ptr) == Int32(|files[0].content|) && !NameMatches(a, ptr, filename)
    ensures Walkable(a, ptr, filename)
    ensures FirstAnswer(files, filename) == |files| ==> Search(a, ptr, filename) == Missing
    ensures FirstAnswer(files, filename) < |files| ==>
      Finds(a, Search(a, ptr, filename), files[FirstAnswer(files, filename)])
    decreases |files|, 0
  {
    var rest := files[1..];
    FirstEntry(a, ptr, files);
    SkipExactlyWhen(files[0]);
    assert FirstAnswer(files, filename) == 1 + FirstAnswer(rest, filename);
    forall j | 0 <= j < FirstAnswer(rest, filename) ensures Skippable(rest[j]) {
      assert rest[j] == files[j + 1];
    }
    var next := ptr + |Entry(files[0])|;
    LookupFindsFirst(a, next, rest, filename);
    WalkOn(a, ptr, filename, next);
    if FirstAnswer(rest, filename) < |rest| {
      assert rest[FirstAnswer(rest, filename)] == files[FirstAnswer(files, filename)];
    }
  }

  /** Past an entry that does not match, the rest of the walk decides. */
  lemma WalkOn(a: seq<byte>, ptr: nat, filename: seq<byte>, next: nat)
    requires |filename| <= 510 && ptr + 512 <= |a| && Magic(a, ptr) && !NameMatches(a, ptr, filename)
    requires ptr < next == ptr + Skip(SizeAt(a, ptr)) && Walkable(a, next, filename)
    ensures Walkable(a, ptr, filename) && Search(a, ptr, filename) == Search(a, next, filename)
  {}

  // -- reading ----------------------------------------------------------------

  /** Where a read that starts inside the content ends. */
  function ReadEnd(size: nat, offset: nat, count: nat): (end: nat)
    requires offset <= size
    ensures offset <= end <= size
  {
    if count < size - offset then offset + count else size
  }

  /** What one read hands out of a content, from an offset. */
  function ReadOut(content: seq<byte>, offset: nat, count: nat): seq<byte> {
    if offset > |content| then [] else content[offset..ReadEnd(|content|, offset, count)]
  }

  /** What reads of the given counts hand out one after the other. */
  function ReadsOut(content: seq<byte>, offset: nat, counts: seq<nat>): seq<byte>
    decreases |counts|
  {
    if counts == [] then [] else
      var data := ReadOut(content, offset, counts[0]);
      data + ReadsOut(content, offset + |data|, counts[1..])
  }

  function Sum(counts: seq<nat>): nat {
    if counts == [] then 0 else counts[0] + Sum(counts[1..])
  }

  lemma SliceOfSlice(a: seq<byte>, from: nat, size: nat, offset: nat, count: nat)
    requires from + size <= |a| && offset + count <= size
    ensures a[from..from + size][offset..offset + count] == a[from + offset..from + offset + count]
  {
    var part, whole := a[from..from + size][offset..offset + count], a[from + offset..from + offset + count];
    forall k | 0 <= k < count ensures part[k] == whole[k] {
      assert part[k] == a[from..from + size][offset + k] == a[from + (offset + k)];
    }
    assert part == whole;
  }

  lemma JoinSlices(a: seq<byte>, i: nat, j: nat, k: nat)
    requires i <= j <= k <= |a|
    ensures a[i..j] + a[j..k] == a[i..k]
  {}

  lemma ReadsSplit(content: seq<byte>, offset: nat, counts: seq<nat>)
    requires offset <= |content| && counts != []
    ensures var after := ReadEnd(|content|, offset, counts[0]);
      ReadsOut(content, offset, counts) == content[offset..after] + ReadsOut(content, after, counts[1..])
  {
    var data := ReadOut(content, offset, counts[0]);
    assert |data| == ReadEnd(|content|, offset, counts[0]) - offset;
  }

  /** One read, and then others that hand out what one of `n` bytes would, hand out what one of both counts would. */
  lemma FirstRead(content: seq<byte>, offset: nat, counts: seq<nat>, n: nat)
    requires offset <= |content| && counts != []
    requires var after := ReadEnd(|content|, offset, counts[0]);
      ReadsOut(content, after, counts[1..]) == ReadOut(content, after, n)
    ensures ReadsOut(content, offset, counts) == ReadOut(content, offset, counts[0] + n)
  {
    var after := ReadEnd(|content|, offset, counts[0]);
    var end := ReadEnd(|content|, after, n);
    assert end == ReadEnd(|content|, offset, counts[0] + n);
    ReadsSplit(content, offset, counts);
    JoinSlices(content, offset, after, end);
  }

  /** However it is cut up, reading hands out the content from the offset on, as far as the counts reach. */
  lemma {:induction false} ReadsConcatenate(content: seq<byte>, offset: nat, counts: seq<nat>)
    requires offset <= |content|
    ensures ReadsOut(content, offset, counts) == ReadOut(content, offset, Sum(counts))
    decreases |counts|
  {
    if counts != [] {
      ReadsConcatenate(content, ReadEnd(|content|, offset, counts[0]), counts[1..]);
      FirstRead(content, offset, counts, Sum(counts[1..]));
    }
  }

  class OpenFile {
    const path: seq<byte>
    const filesz: nat
    var offset: nat

    constructor (path: seq<byte>, filesz: nat)
      ensures this.path == path && this.filesz == filesz && offset == 0
    {
      this.path, this.filesz, offset := path, filesz, 0;
    }

    /** The lookup at the start of `read`. */
    method LookUp(archive: seq<byte>, ghost files: seq<File>) returns (r: Lookup)
      requires (forall f | f in files :: GoodFile(f)) && EncodedAt(archive, 0, files)
      requires |path| <= 99 && (forall i | 0 <= i < |path| :: path[i] != 0) && FirstAnswer(files, path) < |files|
      requires forall j | 0 <= j < FirstAnswer(files, path) :: Skippable(files[j])
      ensures Finds(archive, r, files[FirstAnswer(files, path)])
    {
      LookupFindsFirst(archive, 0, files, path);
      r := InitramfsLookup(archive, Path(path));
    }

    /** `read`: looks the file up again and copies from its content. */
    method Read(archive: seq<byte>, count: nat, ghost files: seq<File>) returns (data: seq<byte>)
      requires (forall f | f in files :: GoodFile(f)) && EncodedAt(archive, 0, files)
      requires |path| <= 99 && (forall i | 0 <= i < |path| :: path[i] != 0) && FirstAnswer(files, path) < |files|
      requires forall j | 0 <= j < FirstAnswer(files, path) :: Skippable(files[j])
      requires |files[FirstAnswer(files, path)].content| < 0x8000_0000
      modifies this`offset
      ensures data == ReadOut(files[FirstAnswer(files, path)].content, old(offset), count)
      ensures offset == old(offset) + |data|
      ensures var content := files[FirstAnswer(files, path)].content;
        && |data| == (if old(offset) >= |content| then 0
                      else if count < |content| - old(offset) then count else |content| - old(offset))
        && forall k | 0 <= k < |data| :: data[k] == content[old(offset) + k]
    {
      var r := LookUp(archive, files);
      data := CopyOut(archive, r, count, files[FirstAnswer(files, path)]);
    }

    /** The rest of `read`. */
    method CopyOut(archive: seq<byte>, r: Lookup, count: nat, ghost f: File) returns (data: seq<byte>)
      requires Finds(archive, r, f) && |f.content| < 0x8000_0000
      modifies this`offset
      ensures data == ReadOut(f.content, old(offset), count) && offset == old(offset) + |data|
    {
      if offset >= r.size {
        return [];
      }
      var remaining := r.size - offset;
      var toCopy := if count < remaining then count else remaining;
      data := archive[r.content + offset..r.content + offset + toCopy];
      SliceOfSlice(archive, r.content, r.size, offset, toCopy);
      offset := offset + toCopy;
    }
  }
}
