/**
  The bitmap allocator for physical page frames.

  The first half says on plain values what allocating and freeing a frame mean and
  proves what the rest of the kernel relies on.  The second half is the allocator
  itself: areas whose bitmaps are changed in place, bit by bit.
 */
module Frames {

  import HeaderPages
  import opened Seal

  /** The search halts the machine on areas with more pages than this. */
  const SEARCH_LIMIT := 1000000
  const MAX_AREAS := 0x100

  /** An area: the address of its first page and one flag a page, true when in use. */
  datatype AreaView = AreaView(first: nat, bits: seq<bool>)

  /** Outcomes of `allocate_page`; `Halted` is the machine stopping for good. */
  datatype Allocation = Page(addr: nat) | Exhausted | Halted

  function LowestClear(bits: seq<bool>): (k: nat)
    ensures k <= |bits|
    ensures forall j | 0 <= j < k :: bits[j]
    ensures k < |bits| ==> !bits[k]
  {
    if bits == [] || !bits[0] then 0 else 1 + LowestClear(bits[1..])
  }

  predicate Full(a: AreaView) {
    LowestClear(a.bits) == |a.bits|
  }

  function FirstWithRoom(v: seq<AreaView>): (i: nat)
    ensures i <= |v|
    ensures forall j | 0 <= j < i :: Full(v[j])
    ensures i < |v| ==> !Full(v[i])
  {
    if v == [] || !Full(v[0]) then 0 else 1 + FirstWithRoom(v[1..])
  }

  function Addr(a: AreaView, k: nat): nat {
    a.first + k * 0x1000
  }

  function SetBit(a: AreaView, k: nat, b: bool): AreaView
    requires k < |a.bits|
  {
    a.(bits := a.bits[k := b])
  }

  /** The lowest clear page of the first area that is not full. */
  function Allocate(v: seq<AreaView>): (Allocation, seq<AreaView>) {
    var i := FirstWithRoom(v);
    if i == |v| then (Exhausted, v)
    else if |v[i].bits| > SEARCH_LIMIT then (Halted, v)
    else
      var k := LowestClear(v[i].bits);
      (Page(Addr(v[i], k)), v[i := SetBit(v[i], k, true)])
  }

  /** Address `page` lies in area `i`, whatever its alignment. */
  predicate InArea(v: seq<AreaView>, i: nat, page: nat) {
    i < |v| && v[i].first <= page < v[i].first + |v[i].bits| * 0x1000
  }

  /** The first area that holds address `page`, or |v|. */
  function AreaOf(v: seq<AreaView>, page: nat): (i: nat)
    ensures i <= |v|
    ensures forall j | 0 <= j < i :: !InArea(v, j, page)
    ensures i < |v| ==> InArea(v, i, page)
  {
    if v == [] || InArea(v, 0, page) then 0 else
      var i := 1 + AreaOf(v[1..], page);
      assert forall j | 1 <= j < |v| :: InArea(v, j, page) <==> InArea(v[1..], j - 1, page);
      i
  }

  function IndexIn(a: AreaView, page: nat): nat
    requires a.first <= page
  {
    (page - a.first) / 0x1000
  }

  /** Clears the page's flag; addresses outside all areas are ignored. */
  function Free(v: seq<AreaView>, page: nat): seq<AreaView> {
    var i := AreaOf(v, page);
    if i == |v| then v else v[i := SetBit(v[i], IndexIn(v[i], page), false)]
  }

  // -- which frames are in use ------------------------------------------------

  ghost predicate FrameOf(a: AreaView, f: nat) {
    a.first <= f < a.first + |a.bits| * 0x1000 && (f - a.first) % 0x1000 == 0
  }

  ghost predicate InUse(a: AreaView, f: nat) {
    FrameOf(a, f) && a.bits[IndexIn(a, f)]
  }

  ghost function Used(v: seq<AreaView>): set<nat> {
    set i, f: nat | 0 <= i < |v| && 0 <= f < v[i].first + |v[i].bits| * 0x1000 && InUse(v[i], f) :: f
  }

  /** Every frame the allocator hands out. */
  ghost function Managed(v: seq<AreaView>): set<nat> {
    set i, f: nat | 0 <= i < |v| && 0 <= f < v[i].first + |v[i].bits| * 0x1000 && FrameOf(v[i], f) :: f
  }

  /** Areas are page aligned, above address 0, below 2^52, and do not overlap. */
  ghost predicate WellPlaced(v: seq<AreaView>) {
    && (forall i | 0 <= i < |v| ::
          && v[i].first % 0x1000 == 0 && 0x1000 <= v[i].first
          && v[i].first + |v[i].bits| * 0x1000 <= 0x10_0000_0000_0000)
    && (forall i, j {:trigger Apart(v[i], v[j])} | 0 <= i < |v| && 0 <= j < |v| && i != j :: Apart(v[i], v[j]))
  }

  ghost predicate Apart(a: AreaView, b: AreaView) {
    || a.first + |a.bits| * 0x1000 <= b.first
    || b.first + |b.bits| * 0x1000 <= a.first
  }

  lemma UsedAreManaged(v: seq<AreaView>)
    ensures Used(v) <= Managed(v)
  {
    forall f: nat | f in Used(v) ensures f in Managed(v) {
      var i: nat :| i < |v| && InUse(v[i], f);
      assert InUse(v[i], f);
      assert FrameOf(v[i], f);
    }
  }

  lemma AddrIsFrame(a: AreaView, k: nat)
    requires k < |a.bits|
    ensures FrameOf(a, Addr(a, k)) && IndexIn(a, Addr(a, k)) == k
    ensures InUse(a, Addr(a, k)) <==> a.bits[k]
  {}

  /** A frame belongs to one area only. */
  lemma OneArea(v: seq<AreaView>, i: nat, j: nat, f: nat)
    requires WellPlaced(v) && InArea(v, i, f) && InArea(v, j, f)
    ensures i == j
  {
    assert !Apart(v[i], v[j]);
  }

  /** Changing one flag of an area changes the state of one frame of that area. */
  lemma SetBitUsed(a: AreaView, k: nat, b: bool, f: nat)
    requires k < |a.bits|
    ensures InUse(SetBit(a, k, b), f) <==> if f == Addr(a, k) then b else InUse(a, f)
    ensures FrameOf(SetBit(a, k, b), f) <==> FrameOf(a, f)
  {
    AddrIsFrame(a, k);
    if FrameOf(a, f) && IndexIn(a, f) == k {
      assert f == Addr(a, k);
    }
  }

  ghost predicate Same(v: seq<AreaView>, v': seq<AreaView>) {
    |v| == |v'| && forall i | 0 <= i < |v| :: v'[i].first == v[i].first && |v'[i].bits| == |v[i].bits|
  }

  lemma SamePlaces(v: seq<AreaView>, v': seq<AreaView>)
    requires WellPlaced(v) && Same(v, v')
    ensures WellPlaced(v') && Managed(v') == Managed(v)
  {
    forall i, j | 0 <= i < |v| && 0 <= j < |v| && i != j ensures Apart(v'[i], v'[j]) {
      assert Apart(v[i], v[j]);
    }
    forall f: nat ensures f in Managed(v') <==> f in Managed(v) {
      if f in Managed(v') {
        var i: nat :| i < |v'| && FrameOf(v'[i], f);
        assert FrameOf(v'[i], f);
        assert FrameOf(v[i], f);
      }
      if f in Managed(v) {
        var i: nat :| i < |v| && FrameOf(v[i], f);
        assert FrameOf(v[i], f);
        assert FrameOf(v'[i], f);
      }
    }
  }

  /** Changing one flag of one area changes exactly one frame's state. */
  lemma SetBitInView(v: seq<AreaView>, i: nat, k: nat, b: bool)
    requires WellPlaced(v) && i < |v| && k < |v[i].bits|
    ensures var v' := v[i := SetBit(v[i], k, b)];
      && WellPlaced(v')
      && Managed(v') == Managed(v)
      && Used(v') == (if b then Used(v) + {Addr(v[i], k)} else Used(v) - {Addr(v[i], k)})
    ensures Addr(v[i], k) in Used(v) <==> v[i].bits[k]
    ensures Addr(v[i], k) in Managed(v)
  {
    var v' := v[i := SetBit(v[i], k, b)];
    var f := Addr(v[i], k);
    SamePlaces(v, v');
    AddrIsFrame(v[i], k);
    UsedAt(v, i, f);
    forall g: nat ensures g in Used(v') <==> if g == f then b else g in Used(v) {
      SetBitUsed(v[i], k, b, g);
      if g == f {
        UsedAt(v', i, f);
      } else {
        if g in Used(v') {
          var j: nat :| j < |v'| && InUse(v'[j], g);
          assert InUse(v'[j], g);
          assert InUse(v[j], g);
        }
        if g in Used(v) {
          var j: nat :| j < |v| && InUse(v[j], g);
          assert InUse(v[j], g);
          assert InUse(v'[j], g);
        }
      }
    }
  }

  /** Whether a frame is in use is decided by the area it lies in. */
  lemma UsedAt(v: seq<AreaView>, i: nat, f: nat)
    requires WellPlaced(v) && i < |v| && FrameOf(v[i], f)
    ensures f in Used(v) <==> InUse(v[i], f)
    ensures f in Managed(v)
  {
    if f in Used(v) {
      var j: nat :| j < |v| && InUse(v[j], f);
      assert InUse(v[j], f);
      OneArea(v, i, j, f);
    }
  }

  /** A page comes out only if it was free, and it is then the only frame whose state changed. */
  lemma AllocateTakesFreeFrame(v: seq<AreaView>)
    requires WellPlaced(v)
    ensures var (r, v') := Allocate(v);
      && WellPlaced(v') && Managed(v') == Managed(v)
      && (r.Page? ==>
            && r.addr in Managed(v) && r.addr !in Used(v) && Used(v') == Used(v) + {r.addr}
            && r.addr % 0x1000 == 0 && 0x1000 <= r.addr < 0x10_0000_0000_0000)
      && (!r.Page? ==> v' == v)
  {
    var i := FirstWithRoom(v);
    if i < |v| && |v[i].bits| <= SEARCH_LIMIT {
      SetBitInView(v, i, LowestClear(v[i].bits), true);
    }
  }

  /** Allocation fails exactly when every frame is in use, and with areas the search accepts it never halts. */
  lemma ExhaustedExactlyWhenFull(v: seq<AreaView>)
    requires WellPlaced(v)
    ensures Allocate(v).0.Exhausted? <==> Used(v) == Managed(v)
    ensures (forall i | 0 <= i < |v| :: |v[i].bits| <= 1000000) ==> !Allocate(v).0.Halted?
  {
    var i := FirstWithRoom(v);
    UsedAreManaged(v);
    if i < |v| {
      SetBitInView(v, i, LowestClear(v[i].bits), true);
    } else {
      forall f: nat | f in Managed(v) ensures f in Used(v) {
        var j: nat :| j < |v| && FrameOf(v[j], f);
        assert FrameOf(v[j], f);
        assert Full(v[j]);
        assert InUse(v[j], f);
      }
    }
  }

  /** A frame in use is found in its area at its own flag. */
  lemma FindsFrame(v: seq<AreaView>, page: nat)
    requires WellPlaced(v) && page in Used(v)
    ensures AreaOf(v, page) < |v| && InUse(v[AreaOf(v, page)], page)
  {
    var j: nat :| j < |v| && InUse(v[j], page);
    assert InUse(v[j], page);
    assert InArea(v, j, page);
    OneArea(v, AreaOf(v, page), j, page);
  }

  /** Freeing a frame in use frees exactly that frame. */
  lemma FreeReleasesFrame(v: seq<AreaView>, page: nat)
    requires WellPlaced(v) && page in Used(v)
    ensures WellPlaced(Free(v, page)) && Managed(Free(v, page)) == Managed(v)
    ensures Used(Free(v, page)) == Used(v) - {page}
  {
    FindsFrame(v, page);
    var i := AreaOf(v, page);
    SetBitInView(v, i, IndexIn(v[i], page), false);
  }

  /** Freeing the page just allocated restores every flag of every area. */
  lemma FreeUndoesAllocate(v: seq<AreaView>)
    requires WellPlaced(v) && Allocate(v).0.Page?
    ensures Free(Allocate(v).1, Allocate(v).0.addr) == v
  {
    var i := FirstWithRoom(v);
    var k := LowestClear(v[i].bits);
    var v' := Allocate(v).1;
    var f := Allocate(v).0.addr;
    AllocateTakesFreeFrame(v);
    FindsFrame(v', f);
    assert InArea(v', i, f);
    OneArea(v', AreaOf(v', f), i, f);
    assert v[i].bits[k := true][k := false] == v[i].bits;
  }

  // -- the number of flags set ------------------------------------------------

  function Count(bits: seq<bool>): (n: nat)
    ensures n <= |bits|
  {
    if bits == [] then 0 else (if bits[|bits| - 1] then 1 else 0) + Count(bits[..|bits| - 1])
  }

  lemma {:induction false} CountSet(bits: seq<bool>, k: nat, b: bool)
    requires k < |bits|
    ensures Count(bits[k := b]) == Count(bits) + (if b then 1 else 0) - (if bits[k] then 1 else 0)
  {
    var n := |bits| - 1;
    if k == n {
      assert bits[k := b][..n] == bits[..n];
    } else {
      assert bits[k := b][..n] == bits[..n][k := b];
      CountSet(bits[..n], k, b);
    }
  }

  lemma {:induction false} CountFull(bits: seq<bool>)
    ensures Count(bits) == |bits| <==> LowestClear(bits) == |bits|
  {
    if bits != [] {
      var n := |bits| - 1;
      CountFull(bits[..n]);
      if LowestClear(bits[..n]) < n {
        assert !bits[LowestClear(bits[..n])];
      }
      if LowestClear(bits) < n {
        assert !bits[..n][LowestClear(bits)];
      }
    }
  }

  // -- bytes of a bitmap ------------------------------------------------------

  /** The value of `1u << j` in a byte. */
  function Mask(j: nat): bv8
    requires j < 8
  {
    if j == 0 then 0x01 else if j == 1 then 0x02 else if j == 2 then 0x04 else if j == 3 then 0x08
    else if j == 4 then 0x10 else if j == 5 then 0x20 else if j == 6 then 0x40 else 0x80
  }

  predicate Bit(b: bv8, j: nat)
    requires j < 8
  {
    b & Mask(j) != 0
  }

  predicate OneHot(m: bv8) {
    m != 0 && m & (m - 1) == 0
  }

  lemma MaskOneHot(j: nat, k: nat)
    requires j < 8 && k < 8
    ensures OneHot(Mask(j)) && OneHot(Mask(k))
    ensures Mask(j) == Mask(k) <==> j == k
  {}

  lemma OneHotBits(b: bv8, m: bv8, n: bv8)
    requires OneHot(m) && OneHot(n)
    ensures (b | m) & n != 0 <==> b & n != 0 || m == n
    ensures (b & !m) & n != 0 <==> b & n != 0 && m != n
  {}

  lemma SetBitOfByte(b: bv8, j: nat, k: nat)
    requires j < 8 && k < 8
    ensures Bit(b | Mask(j), k) <==> Bit(b, k) || j == k
    ensures Bit(b & !Mask(j), k) <==> Bit(b, k) && j != k
  {
    MaskOneHot(j, k);
    OneHotBits(b, Mask(j), Mask(k));
  }

  /** The flags a bitmap holds, eight a byte, lowest bit first. */
  ghost function BitsOf(bytes: seq<bv8>): seq<bool> {
    seq(8 * |bytes|, k requires 0 <= k < 8 * |bytes| => Bit(bytes[k / 8], k % 8))
  }

  /** Writing one bit of one byte writes one element of the bitmap. */
  lemma ByteWritten(bytes: seq<bv8>, i: nat, j: nat, byte: bv8, b: bool)
    requires i < |bytes| && j < 8
    requires byte == if b then bytes[i] | Mask(j) else bytes[i] & !Mask(j)
    ensures BitsOf(bytes[i := byte]) == BitsOf(bytes)[8 * i + j := b]
  {
    forall k: nat | k < 8
      ensures Bit(byte, k) <==> if k == j then b else Bit(bytes[i], k)
    {
      SetBitOfByte(bytes[i], j, k);
    }
    BitsAfterWrite(bytes, i, j, byte, b);
  }

  lemma BitsAfterWrite(bytes: seq<bv8>, i: nat, j: nat, byte: bv8, b: bool)
    requires i < |bytes| && j < 8
    requires forall k: nat | k < 8 :: Bit(byte, k) <==> if k == j then b else Bit(bytes[i], k)
    ensures BitsOf(bytes[i := byte]) == BitsOf(bytes)[8 * i + j := b]
  {
    var after, want := BitsOf(bytes[i := byte]), BitsOf(bytes)[8 * i + j := b];
    forall k | 0 <= k < |after| ensures after[k] == want[k] {
      assert k == 8 * (k / 8) + k % 8;
    }
  }

  lemma LowestClearIs(bits: seq<bool>, k: nat)
    requires k <= |bits| && (forall j | 0 <= j < k :: bits[j]) && (k < |bits| ==> !bits[k])
    ensures LowestClear(bits) == k
  {}

  datatype Search = Found(index: nat) | NotFound | SearchHalted

  /** `find_unused_page`: finds the lowest clear bit among the first `pages` and sets it. */
  method FindUnusedPage(data: array<bv8>, pages: nat) returns (r: Search)
    requires pages <= 8 * data.Length
    modifies data
    ensures r.SearchHalted? <==> pages == 0 || pages > 1000000
    ensures !r.Found? ==> data[..] == old(data[..])
    ensures r.NotFound? ==> LowestClear(BitsOf(data[..])[..pages]) == pages
    ensures r.Found? ==>
      && r.index < pages
      && r.index == LowestClear(old(BitsOf(data[..])[..pages]))
      && BitsOf(data[..]) == old(BitsOf(data[..]))[r.index := true]
  {
    if pages == 0 || pages > SEARCH_LIMIT {
      return SearchHalted;
    }
    ghost var bytes := data[..];
    ghost var bits := BitsOf(bytes)[..pages];
    var byteCount := (pages + 7) / 8;
    var i := 0;
    while i < byteCount
      invariant 0 <= i <= byteCount
      invariant data[..] == bytes
      invariant forall k | 0 <= k < 8 * i && k < pages :: bits[k]
    {
      var j := 0;
      while j < 8
        invariant 0 <= j <= 8
        invariant data[..] == bytes
        invariant forall k | 0 <= k < 8 * i + j && k < pages :: bits[k]
      {
        var page := i * 8 + j;
        if page >= pages {
          LowestClearIs(bits, pages);
          return NotFound;
        }
        assert bits[page] == Bit(data[i], j);
        if data[i] & Mask(j) == 0 {
          LowestClearIs(bits, page);
          data[i] := data[i] | Mask(j);
          ByteWritten(bytes, i, j, bytes[i] | Mask(j), true);
          assert data[..] == bytes[i := bytes[i] | Mask(j)];
          return Found(page);
        }
        j := j + 1;
      }
      i := i + 1;
    }
    LowestClearIs(bits, pages);
    return NotFound;
  }

  method ClearBit(data: array<bv8>, index: nat)
    requires index < 8 * data.Length
    modifies data
    ensures BitsOf(data[..]) == BitsOf(old(data[..]))[index := false]
  {
    ghost var bytes := data[..];
    var byte := data[index / 8] & !Mask(index % 8);
    ByteWritten(bytes, index / 8, index % 8, byte, false);
    data[index / 8] := byte;
    assert data[..] == bytes[index / 8 := byte];
  }

  ghost predicate ClearFrom(bits: seq<bool>, n: nat) {
    forall k | n <= k < |bits| :: !bits[k]
  }

  lemma SetInPrefix(bits: seq<bool>, n: nat, k: nat, b: bool)
    requires k < n <= |bits|
    ensures bits[k := b][..n] == bits[..n][k := b]
    ensures ClearFrom(bits, n) ==> ClearFrom(bits[k := b], n)
    ensures Count(bits[k := b][..n]) == Count(bits[..n]) + (if b then 1 else 0) - (if bits[k] then 1 else 0)
    ensures bits[k] ==> Count(bits[..n]) >= 1
  {
    CountSet(bits[..n], k, b);
    CountSet(bits[..n], k, false);
  }

  /** One memory area: the first page it hands out, how many, how many are used, and the bitmap. */
  class Area {
    const first: nat
    const pages: nat
    var used: nat
    const data: array<bv8>
    /** The flags of the pages, as the bitmap stores them. */
    ghost var bits: seq<bool>
    ghost const seal: nat

    ghost predicate Valid()
      reads this, data
    {
      |bits| == pages && used == Count(bits) && (Sealed(seal) ==> Stored())
    }

    /** The bitmap holds the flags, and no bit is set behind the last page's. */
    ghost predicate Stored()
      reads this, data
    {
      pages <= 8 * data.Length && bits == BitsOf(data[..])[..pages] && ClearFrom(BitsOf(data[..]), pages)
    }

    ghost function View(): AreaView
      reads this
    {
      AreaView(first, bits)
    }

    /** A fresh area of `total` pages at `base`; its bitmap fills the header pages, all clear. */
    constructor (base: nat, total: nat, header: nat)
      requires header < total && HeaderPages.DATA_OFFSET + HeaderPages.BitmapBytes(total - header) <= header * 0x1000
      ensures Valid() && fresh(data)
      ensures View() == FreshArea(base, total, header)
    {
      first := base + header * 0x1000;
      pages := total - header;
      used := 0;
      data := new bv8[header * 0x1000 - HeaderPages.DATA_OFFSET](_ => 0);
      bits := seq(total - header, _ => false);
      new;
      NoBitsInZeros(data[..]);
      CountNone(bits);
      assert bits == BitsOf(data[..])[..pages];
    }

    /** The part of `allocate_page` that works on the area it found room in. */
    method TakePage() returns (r: Allocation)
      requires Valid() && !Full(View())
      modifies this, data
      ensures Valid()
      ensures pages > SEARCH_LIMIT ==> r == Halted && View() == old(View())
      ensures pages <= SEARCH_LIMIT ==>
        && r == Page(Addr(old(View()), LowestClear(old(bits))))
        && View() == SetBit(old(View()), LowestClear(old(bits)), true)
    {
      AlwaysSealed(seal);
      ghost var stored := BitsOf(data[..]);
      var found := FindUnusedPage(data, pages);
      if found.SearchHalted? {
        return Halted;
      }
      assert found.Found?;
      SetInPrefix(stored, pages, found.index, true);
      bits := bits[found.index := true];
      used := used + 1;
      return Page(first + found.index * 0x1000);
    }

    /** The part of `free_page` that works on the area the page lies in. */
    method ReleasePage(page: nat)
      requires Valid() && first <= page < first + pages * 0x1000 && bits[IndexIn(View(), page)]
      modifies this, data
      ensures Valid()
      ensures View() == SetBit(old(View()), IndexIn(old(View()), page), false)
    {
      AlwaysSealed(seal);
      var index := (page - first) / 0x1000;
      SetInPrefix(BitsOf(data[..]), pages, index, false);
      used := used - 1;
      bits := bits[index := false];
      ClearBit(data, index);
    }
  }

  /** Valid areas that share neither headers nor bitmaps, all among `objects`. */
  ghost predicate GoodAreas(list: seq<Area>, objects: set<object>)
    reads objects
  {
    && (forall i | 0 <= i < |list| :: list[i] in objects && list[i].data in objects && list[i].Valid())
    && (forall i, j {:trigger Distinct(list[i], list[j])} | 0 <= i < |list| && 0 <= j < |list| && i != j ::
          Distinct(list[i], list[j]))
  }

  ghost predicate Distinct(x: Area, y: Area) {
    x != y && x.data != y.data
  }

  /** `view` says what each area's flags are. */
  ghost predicate Shows(list: seq<Area>, view: seq<AreaView>)
    reads list
  {
    |view| == |list| && forall i | 0 <= i < |list| :: view[i] == list[i].View()
  }

  function FreshArea(base: nat, total: nat, header: nat): AreaView
    requires header < total
  {
    AreaView(base + header * 0x1000, seq(total - header, _ => false))
  }

  lemma NoBitsInZeros(bytes: seq<bv8>)
    requires forall i | 0 <= i < |bytes| :: bytes[i] == 0
    ensures forall k | 0 <= k < 8 * |bytes| :: !BitsOf(bytes)[k]
  {}

  lemma {:induction false} CountNone(bits: seq<bool>)
    requires forall k | 0 <= k < |bits| :: !bits[k]
    ensures Count(bits) == 0
  {
    if bits != [] {
      CountNone(bits[..|bits| - 1]);
    }
  }

  /** An entry of the boot loader's memory map. */
  datatype Entry = Entry(base: nat, length: nat, usable: bool)

  predicate Taken(e: Entry) {
    e.usable && e.length >= 0x2000
  }

  function PagesOf(e: Entry): nat {
    e.length / 0x1000
  }

  /** What the boot loader promises of the map, and what `CalcHeaderPages` needs of each entry used. */
  ghost predicate GoodMap(memmap: seq<Entry>) {
    && (forall i | 0 <= i < |memmap| && Taken(memmap[i]) ::
          && memmap[i].base % 0x1000 == 0 && memmap[i].base + memmap[i].length <= 0x10_0000_0000_0000
          && HeaderPages.Converges(PagesOf(memmap[i])))
    && (forall i, j | 0 <= i < j < |memmap| && Taken(memmap[i]) && Taken(memmap[j]) ::
          || memmap[i].base + memmap[i].length <= memmap[j].base
          || memmap[j].base + memmap[j].length <= memmap[i].base)
  }

  /** The areas the allocator starts with: every usable entry of at least two pages, header cut off. */
  ghost function InitialView(memmap: seq<Entry>): seq<AreaView>
    requires GoodMap(memmap)
  {
    if memmap == [] then [] else
      var e := memmap[|memmap| - 1];
      var rest := InitialView(memmap[..|memmap| - 1]);
      if Taken(e) then rest + [AreaFor(e)] else rest
  }

  function AreaFor(e: Entry): AreaView
    requires Taken(e)
  {
    HeaderPages.FixedPointInRange(PagesOf(e));
    FreshArea(e.base, PagesOf(e), HeaderPages.FixedPoint(PagesOf(e)))
  }

  /**
    The area's pages are the last whole pages of the entry, as many as leave room in
    front for 24 bytes and a bit for each of them, and not a page less.
   */
  ghost predicate Inside(a: AreaView, e: Entry) {
    && e.base + 24 + (|a.bits| + 7) / 8 <= a.first < e.base + 24 + (|a.bits| + 7) / 8 + 0x1000
    && a.first + |a.bits| * 0x1000 == e.base + e.length / 0x1000 * 0x1000
    && |a.bits| > 0 && a.first % 0x1000 == 0
  }

  ghost predicate InsideSome(a: AreaView, memmap: seq<Entry>) {
    exists k: nat | k < |memmap| :: Taken(memmap[k]) && Inside(a, memmap[k])
  }

  /** Area `i`, and no other, is that of the entry. */
  ghost predicate IsAreaOf(v: seq<AreaView>, i: nat, e: Entry) {
    i < |v| && Inside(v[i], e) && forall j | 0 <= j < |v| && Inside(v[j], e) :: j == i
  }

  /** Each area belongs to a usable entry of two pages or more, and each of those has exactly one area. */
  ghost predicate OneEach(v: seq<AreaView>, memmap: seq<Entry>) {
    && (forall i | 0 <= i < |v| ::
          exists k: nat | k < |memmap| :: memmap[k].usable && memmap[k].length >= 0x2000 && Inside(v[i], memmap[k]))
    && (forall k | 0 <= k < |memmap| && memmap[k].usable && memmap[k].length >= 0x2000 ::
          exists i :: IsAreaOf(v, i, memmap[k]))
  }

  lemma AreaForInside(e: Entry)
    requires Taken(e) && e.base % 0x1000 == 0 && HeaderPages.Converges(PagesOf(e))
    ensures Inside(AreaFor(e), e)
  {
    var total := PagesOf(e);
    var header := HeaderPages.FixedPoint(total);
    HeaderPages.FixedPointInRange(total);
    HeaderPages.LeastThatFits(total, header - 1);
    HeaderPages.FixedPoints(total, header);
  }

  /** The initial areas lie inside the usable entries, past the header, and every frame is free. */
  lemma {:induction false} InitialAreas(memmap: seq<Entry>)
    requires GoodMap(memmap)
    ensures |InitialView(memmap)| <= |memmap|
    ensures WellPlaced(InitialView(memmap)) && Used(InitialView(memmap)) == {}
    ensures forall i | 0 <= i < |InitialView(memmap)| :: InsideSome(InitialView(memmap)[i], memmap)
    ensures OneEach(InitialView(memmap), memmap)
  {
    if memmap != [] {
      InitialAreas(memmap[..|memmap| - 1]);
      OneEntryMore(InitialView(memmap[..|memmap| - 1]), memmap);
    }
  }

  /** One entry more, and its area if it is taken. */
  lemma OneEntryMore(rest: seq<AreaView>, memmap: seq<Entry>)
    requires GoodMap(memmap) && memmap != [] && WellPlaced(rest) && Used(rest) == {}
    requires forall i | 0 <= i < |rest| :: InsideSome(rest[i], memmap[..|memmap| - 1])
    requires OneEach(rest, memmap[..|memmap| - 1])
    ensures var e := memmap[|memmap| - 1];
      var v := if Taken(e) then rest + [AreaFor(e)] else rest;
      && WellPlaced(v) && Used(v) == {} && OneEach(v, memmap) && forall i | 0 <= i < |v| :: InsideSome(v[i], memmap)
  {
    var e := memmap[|memmap| - 1];
    InsideMore(rest, memmap);
    if Taken(e) {
      OneAreaMore(rest, memmap);
      AllHaveOne(rest, rest + [AreaFor(e)], memmap);
    } else {
      AllHaveOne(rest, rest, memmap);
    }
  }

  lemma OneAreaMore(rest: seq<AreaView>, memmap: seq<Entry>)
    requires GoodMap(memmap) && memmap != [] && Taken(memmap[|memmap| - 1]) && WellPlaced(rest) && Used(rest) == {}
    requires forall i | 0 <= i < |rest| :: InsideSome(rest[i], memmap[..|memmap| - 1])
    ensures var e := memmap[|memmap| - 1];
      && Inside(AreaFor(e), e) && InsideSome(AreaFor(e), memmap)
      && WellPlaced(rest + [AreaFor(e)]) && Used(rest + [AreaFor(e)]) == {}
  {
    var e := memmap[|memmap| - 1];
    AreaForInside(e);
    assert Taken(memmap[|memmap| - 1]) && Inside(AreaFor(e), memmap[|memmap| - 1]);
    NewAreaApart(rest, AreaFor(e), memmap);
    AppendArea(rest, AreaFor(e));
  }

  lemma AllHaveOne(rest: seq<AreaView>, v: seq<AreaView>, memmap: seq<Entry>)
    requires memmap != [] && WellPlaced(v) && OneEach(rest, memmap[..|memmap| - 1])
    requires forall i | 0 <= i < |v| :: InsideSome(v[i], memmap)
    requires var e := memmap[|memmap| - 1];
      if Taken(e) then |v| == |rest| + 1 && v == rest + [v[|rest|]] && Inside(v[|rest|], e) else v == rest
    ensures OneEach(v, memmap)
  {
    var front := memmap[..|memmap| - 1];
    forall i | 0 <= i < |v|
      ensures exists k: nat | k < |memmap| :: memmap[k].usable && memmap[k].length >= 0x2000 && Inside(v[i], memmap[k])
    {
      assert InsideSome(v[i], memmap);
      var k: nat :| k < |memmap| && Taken(memmap[k]) && Inside(v[i], memmap[k]);
      assert memmap[k].usable && memmap[k].length >= 0x2000 && Inside(v[i], memmap[k]);
    }
    forall k | 0 <= k < |memmap| && memmap[k].usable && memmap[k].length >= 0x2000
      ensures exists i :: IsAreaOf(v, i, memmap[k])
    {
      var i: nat;
      if k < |front| {
        assert front[k] == memmap[k];
        i :| IsAreaOf(rest, i, front[k]);
      } else {
        i := |rest|;
      }
      assert Inside(v[i], memmap[k]);
      OnlyOne(v, i, memmap[k]);
    }
  }

  /** Two areas that end with the same entry overlap, so they are one. */
  lemma OnlyOne(v: seq<AreaView>, i: nat, e: Entry)
    requires WellPlaced(v) && i < |v| && Inside(v[i], e)
    ensures IsAreaOf(v, i, e)
  {
    forall j | 0 <= j < |v| && Inside(v[j], e) ensures j == i {
      assert i != j ==> Apart(v[i], v[j]);
    }
  }

  lemma InsideMore(v: seq<AreaView>, memmap: seq<Entry>)
    requires memmap != [] && forall i | 0 <= i < |v| :: InsideSome(v[i], memmap[..|memmap| - 1])
    ensures forall i | 0 <= i < |v| :: InsideSome(v[i], memmap)
  {
    var front := memmap[..|memmap| - 1];
    forall i | 0 <= i < |v| ensures InsideSome(v[i], memmap) {
      assert InsideSome(v[i], front);
      var k: nat :| k < |front| && Taken(front[k]) && Inside(v[i], front[k]);
      assert Taken(memmap[k]) && Inside(v[i], memmap[k]);
    }
  }

  lemma NewAreaApart(v: seq<AreaView>, a: AreaView, memmap: seq<Entry>)
    requires GoodMap(memmap) && memmap != [] && Taken(memmap[|memmap| - 1]) && Inside(a, memmap[|memmap| - 1])
    requires forall i | 0 <= i < |v| :: InsideSome(v[i], memmap[..|memmap| - 1])
    ensures forall i | 0 <= i < |v| :: Apart(v[i], a)
  {
    var front := memmap[..|memmap| - 1];
    forall i | 0 <= i < |v| ensures Apart(v[i], a) {
      assert InsideSome(v[i], front);
      var k: nat :| k < |front| && Taken(front[k]) && Inside(v[i], front[k]);
      assert memmap[k] == front[k];
    }
  }

  lemma AppendArea(v: seq<AreaView>, a: AreaView)
    requires WellPlaced(v) && Used(v) == {}
    requires a.first % 0x1000 == 0 && 0x1000 <= a.first && a.first + |a.bits| * 0x1000 <= 0x10_0000_0000_0000
    requires forall k | 0 <= k < |a.bits| :: !a.bits[k]
    requires forall i | 0 <= i < |v| :: Apart(v[i], a)
    ensures WellPlaced(v + [a]) && Used(v + [a]) == {}
  {
    forall i: nat, f: nat | i < |v| ensures !InUse(v[i], f) {
      if InUse(v[i], f) {
        UsedAt(v, i, f);
      }
    }
  }

  lemma AppendGoodArea(list: seq<Area>, view: seq<AreaView>, area: Area, objects: set<object>)
    requires GoodAreas(list, objects) && Shows(list, view)
    requires area.Valid() && area !in objects && area.data !in objects
    ensures GoodAreas(list + [area], objects + {area, area.data})
    ensures Shows(list + [area], view + [area.View()])
  {
    assert area in objects + {area, area.data};
  }

  /** Adds the area for one entry of the map. */
  method AddArea(list: seq<Area>, ghost view: seq<AreaView>, ghost objects: set<object>, e: Entry)
    returns (longer: seq<Area>, ghost more: set<object>)
    requires Taken(e) && HeaderPages.Converges(PagesOf(e)) && GoodAreas(list, objects) && Shows(list, view)
    ensures objects <= more && fresh(more - objects)
    ensures GoodAreas(longer, more) && Shows(longer, view + [AreaFor(e)])
  {
    var total := e.length / 0x1000;
    var header := HeaderPages.CalcHeaderPages(total);
    var area := new Area(e.base, total, header);
    AppendGoodArea(list, view, area, objects);
    longer := list + [area];
    more := objects + {area, area.data};
  }

  /** The loop of `bitmap_allocator_init` over the memory map. */
  method MakeAreas(memmap: seq<Entry>) returns (list: seq<Area>, ghost objects: set<object>)
    requires GoodMap(memmap)
    ensures fresh(objects) && GoodAreas(list, objects) && Shows(list, InitialView(memmap))
  {
    list, objects := [], {};
    var i := 0;
    while i < |memmap|
      invariant 0 <= i <= |memmap| && GoodMap(memmap[..i])
      invariant fresh(objects) && GoodAreas(list, objects)
      invariant Shows(list, InitialView(memmap[..i]))
    {
      var e := memmap[i];
      NextEntry(memmap, i);
      if e.usable && e.length >= 0x2000 {
        list, objects := AddArea(list, InitialView(memmap[..i]), objects, e);
      }
      i := i + 1;
    }
    assert memmap[..i] == memmap;
  }

  lemma NextEntry(memmap: seq<Entry>, i: nat)
    requires GoodMap(memmap) && i < |memmap|
    ensures GoodMap(memmap[..i + 1]) && memmap[..i + 1][..i] == memmap[..i]
    ensures InitialView(memmap[..i + 1]) ==
      if Taken(memmap[i]) then InitialView(memmap[..i]) + [AreaFor(memmap[i])] else InitialView(memmap[..i])
  {
    assert memmap[..i + 1][..i] == memmap[..i];
  }

  class BitmapAllocator {
    const areas: seq<Area>
    /** The areas' flags. */
    ghost var view: seq<AreaView>
    /** The objects the allocator changes. */
    ghost const Repr: set<object>

    ghost predicate Valid()
      reads Repr
    {
      && this in Repr && |areas| <= MAX_AREAS
      && GoodAreas(areas, Repr) && Shows(areas, view) && WellPlaced(view)
    }

    constructor (memmap: seq<Entry>)
      requires GoodMap(memmap) && |InitialView(memmap)| <= MAX_AREAS
      ensures Valid() && fresh(Repr) && view == InitialView(memmap)
      ensures OneEach(view, memmap) && Used(view) == {}
    {
      var list: seq<Area>;
      ghost var objects: set<object>;
      list, objects := MakeAreas(memmap);
      areas := list;
      view := InitialView(memmap);
      Repr := objects + {this};
      new;
      InitialAreas(memmap);
    }

    /** Work on one area leaves the others, and the allocator's shape, as they were. */
    twostate lemma OneAreaChanged(i: nat)
      requires old(GoodAreas(areas, Repr)) && old(Shows(areas, view)) && i < |areas| && areas[i].Valid()
      requires forall j | 0 <= j < |areas| && j != i :: unchanged(areas[j]) && unchanged(areas[j].data)
      ensures GoodAreas(areas, Repr) && Shows(areas, old(view)[i := areas[i].View()])
    {}

    lemma OthersDistinct(i: nat)
      requires GoodAreas(areas, Repr) && i < |areas|
      ensures forall j | 0 <= j < |areas| && j != i :: areas[j] != areas[i] && areas[j].data != areas[i].data
    {
      assert forall j | 0 <= j < |areas| && j != i :: Distinct(areas[i], areas[j]);
    }

    /** Takes a page from area `i`, known to have room. */
    method TakeFrom(i: nat) returns (r: Allocation)
      requires Valid() && i == FirstWithRoom(view) < |areas|
      modifies Repr
      ensures Valid()
      ensures (r, view) == Allocate(old(view))
    {
      OthersDistinct(i);
      r := areas[i].TakePage();
      OneAreaChanged(i);
      AllocateIs(view, i, r, areas[i].View());
      view := view[i := areas[i].View()];
    }

    /** Gives back a page that lies in area `i`. */
    method ReleaseFrom(i: nat, page: nat)
      requires Valid() && i == AreaOf(view, page) < |areas| && page in Used(view)
      modifies Repr
      ensures Valid()
      ensures view == Free(old(view), page)
    {
      FreeReleasesFrame(view, page);
      FindsFrame(view, page);
      OthersDistinct(i);
      areas[i].ReleasePage(page);
      OneAreaChanged(i);
      view := view[i := areas[i].View()];
    }

    lemma AreaFields(i: nat)
      requires GoodAreas(areas, Repr) && Shows(areas, view) && i < |areas|
      ensures view[i].first == areas[i].first && |view[i].bits| == areas[i].pages
      ensures areas[i].used < areas[i].pages <==> !Full(view[i])
    {
      CountFull(view[i].bits);
    }

    method AllocatePage() returns (r: Allocation)
      requires Valid()
      modifies Repr
      ensures Valid()
      ensures (r, view) == Allocate(old(view))
    {
      var i := 0;
      while i < |areas|
        invariant 0 <= i <= |areas| && Valid() && view == old(view)
        invariant forall j | 0 <= j < i :: Full(view[j])
      {
        AreaFields(i);
        if areas[i].used < areas[i].pages {
          FirstWithRoomIs(view, i);
          r := TakeFrom(i);
          return;
        }
        i := i + 1;
      }
      FirstWithRoomIs(view, i);
      return Exhausted;
    }

    /** The source trusts its callers that an address inside an area is a page in use. */
    method FreePage(page: nat)
      requires Valid()
      requires AreaOf(view, page) < |view| ==> page in Used(view)
      modifies Repr
      ensures Valid()
      ensures view == Free(old(view), page)
      ensures page in old(Used(view)) ==> Used(view) == old(Used(view)) - {page}
      ensures (forall i | 0 <= i < |old(view)| ::
                 page < old(view)[i].first || old(view)[i].first + |old(view)[i].bits| * 0x1000 <= page) ==>
        view == old(view)
    {
      if page in Used(view) {
        FreeReleasesFrame(view, page);
      }
      var i := 0;
      while i < |areas|
        invariant 0 <= i <= |areas| && Valid() && view == old(view)
        invariant forall j | 0 <= j < i :: !InArea(view, j, page)
      {
        AreaFields(i);
        if page >= areas[i].first && page < areas[i].first + areas[i].pages * 0x1000 {
          AreaOfIs(view, page, i);
          ReleaseFrom(i, page);
          return;
        }
        i := i + 1;
      }
      AreaOfIs(view, page, i);
    }
  }

  lemma AllocateIs(v: seq<AreaView>, i: nat, r: Allocation, a: AreaView)
    requires WellPlaced(v) && i == FirstWithRoom(v) < |v|
    requires |v[i].bits| > SEARCH_LIMIT ==> r == Halted && a == v[i]
    requires |v[i].bits| <= SEARCH_LIMIT ==>
      r == Page(Addr(v[i], LowestClear(v[i].bits))) && a == SetBit(v[i], LowestClear(v[i].bits), true)
    ensures Allocate(v) == (r, v[i := a]) && WellPlaced(v[i := a])
  {
    AllocateTakesFreeFrame(v);
    assert v[i := v[i]] == v;
  }

  lemma FirstWithRoomIs(v: seq<AreaView>, i: nat)
    requires i <= |v| && (forall j | 0 <= j < i :: Full(v[j])) && (i < |v| ==> !Full(v[i]))
    ensures FirstWithRoom(v) == i
  {}

  lemma AreaOfIs(v: seq<AreaView>, page: nat, i: nat)
    requires i <= |v| && (forall j | 0 <= j < i :: !InArea(v, j, page)) && (i < |v| ==> InArea(v, i, page))
    ensures AreaOf(v, page) == i
  {}
}
