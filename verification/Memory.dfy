/**
  The kernel's page-table code: `map_memory_page`, `walk`, the region loops and the
  page copier, working in place on the words and bytes of physical frames.
 */
module Memory {

  import opened Bytes
  import opened Integers
  import opened PageTables
  import opened Spaces
  import opened Seal
  import Frames

  /** The slot of a page-table entry: a table and an index into it. */
  datatype Pte = NoPte | Pte(table: nat, index: nat)

  /** The tables, the meaning of all spaces, and the allocator agree. */
  ghost predicate Agree(words: Words, a: Spaces, v: seq<Frames.AreaView>) {
    && SpacesInv(a) && TreeInv(words, a.nodes, a.upper.Keys)
    && a.managed == Frames.Managed(v) && a.used == Frames.Used(v)
    && (forall r | r in a.upper :: words[r][256..] == a.upper[r])
  }

  /** `a` with one more node on frame `frame`. */
  ghost function WithNode(a: Spaces, n: Node, frame: nat, flags: nat): Spaces {
    a.(nodes := a.nodes[n := MakeEntry(frame, flags)], used := a.used + {frame})
  }

  lemma InstallKeeps(words: Words, a: Spaces, v: seq<Frames.AreaView>, root: nat, q: seq<nat>, flags: nat)
    requires Agree(words, a, v) && Frames.WellPlaced(v) && Frames.Allocate(v).0.Page?
    requires root in a.upper && UserPath(q) && ParentThere(a.nodes, root, q) && Node(root, q) !in a.nodes
    requires GoodFlags(flags)
    ensures var frame := Frames.Allocate(v).0.addr;
      && Grows(a, WithNode(a, Node(root, q), frame, flags), {Node(root, q)}, flags)
      && IsTable(words, OwnerTable(a.nodes, root, q)) && Last(q) < 512
      && FrameOf(MakeEntry(frame, flags)) == frame != OwnerTable(a.nodes, root, q)
      && Agree(Inserted(words, a.nodes, root, q, MakeEntry(frame, flags)),
               WithNode(a, Node(root, q), frame, flags), Frames.Allocate(v).1)
  {
    Frames.AllocateTakesFreeFrame(v);
    var frame := Frames.Allocate(v).0.addr;
    AddNode(a, Node(root, q), frame, flags);
    InsertKeepsTree(words, a.nodes, a.upper.Keys, root, q, MakeEntry(frame, flags));
    InsertKeepsUpper(words, a, root, q, MakeEntry(frame, flags));
  }

  /** An entry of the user half lies outside the kernel halves of the roots. */
  lemma InsertKeepsUpper(words: Words, a: Spaces, root: nat, q: seq<nat>, e: nat)
    requires CanInsert(words, a.nodes, a.upper.Keys, root, q, e)
    requires forall r | r in a.upper :: words[r][256..] == a.upper[r]
    ensures IsTable(words, OwnerTable(a.nodes, root, q)) && Last(q) < 512 && OwnerTable(a.nodes, root, q) != FrameOf(e)
    ensures forall r | r in a.upper ::
      var words' := Inserted(words, a.nodes, root, q, e); r in words' && |words'[r]| == 512 && words'[r][256..] == a.upper[r]
  {
    CanInsertTable(words, a.nodes, a.upper.Keys, root, q, e);
    DeepTableIsNoRoot(words, a.nodes, a.upper.Keys, root, q);
  }

  ghost function WithoutNode(a: Spaces, n: Node): Spaces
    requires n in a.nodes
  {
    a.(nodes := a.nodes - {n}, used := a.used - {FrameOf(a.nodes[n])})
  }

  lemma RemoveKeeps(words: Words, a: Spaces, v: seq<Frames.AreaView>, root: nat, q: seq<nat>)
    requires Agree(words, a, v) && Frames.WellPlaced(v) && Node(root, q) in a.nodes && |q| == 4
    ensures FrameOf(a.nodes[Node(root, q)]) in Frames.Used(v)
    ensures Shrinks(a, WithoutNode(a, Node(root, q)), {Node(root, q)})
    ensures IsTable(words, OwnerTable(a.nodes, root, q)) && Last(q) < 512
    ensures Agree(Removed(words, a.nodes, root, q), WithoutNode(a, Node(root, q)),
                  Frames.Free(v, FrameOf(a.nodes[Node(root, q)])))
  {
    var frame := FrameOf(a.nodes[Node(root, q)]);
    DropNode(a, Node(root, q));
    Frames.FreeReleasesFrame(v, frame);
    RemoveKeepsTree(words, a.nodes, a.upper.Keys, root, q);
    PageParent(words, a.nodes, a.upper.Keys, root, q);
    DeepTableIsNoRoot(words, a.nodes, a.upper.Keys, root, q);
  }

  /** Storing a table with an empty user half in a fresh frame makes it the root of a new space. */
  lemma NewRootKeeps(words: Words, a: Spaces, v: seq<Frames.AreaView>, cr3: nat, table: seq<nat>)
    requires Agree(words, a, v) && Frames.WellPlaced(v) && Frames.Allocate(v).0.Page? && cr3 in a.upper
    requires |table| == 512 && (forall i | 0 <= i < 256 :: table[i] == 0) && table[256..] == a.upper[cr3]
    ensures var r := Frames.Allocate(v).0.addr;
      CanRoot(a, cr3, r) && Agree(words[r := table], WithRoot(a, cr3, r), Frames.Allocate(v).1)
  {
    Frames.AllocateTakesFreeFrame(v);
    var r := Frames.Allocate(v).0.addr;
    RootKeeps(a, cr3, r);
    AddRootKeepsTree(words, a.nodes, a.upper.Keys, r, table);
    assert WithRoot(a, cr3, r).upper.Keys == a.upper.Keys + {r};
  }

  /** The cleared table with the upper 256 entries of `from` copied in. */
  method MirrorUpper(from: seq<nat>) returns (table: seq<nat>)
    requires |from| == 512
    ensures |table| == 512 && (forall i | 0 <= i < 256 :: table[i] == 0) && table[256..] == from[256..]
  {
    table := ZeroTable();
    var i := 256;
    while i < 512
      invariant 256 <= i <= 512 && |table| == 512
      invariant forall k | 0 <= k < 256 :: table[k] == 0
      invariant forall k | 256 <= k < i :: table[k] == from[k]
    {
      table := table[i := from[i]];
      i := i + 1;
    }
  }

  /** One root whose user half maps nothing; frames in use already belong to the kernel. */
  ghost function BootSpaces(v: seq<Frames.AreaView>, cr3: nat, table: seq<nat>): Spaces
    requires |table| == 512
  {
    Spaces(map[], map[cr3 := table[256..]], Frames.Managed(v), Frames.Used(v), Frames.Used(v))
  }

  lemma BootAgrees(v: seq<Frames.AreaView>, cr3: nat, table: seq<nat>)
    requires |table| == 512 && forall i | 0 <= i < 256 :: !Present(table[i])
    requires cr3 in Frames.Managed(v) ==> cr3 in Frames.Used(v)
    ensures Agree(map[cr3 := table], BootSpaces(v, cr3, table), v)
  {
    Frames.UsedAreManaged(v);
    AddRootKeepsTree(map[], map[], {}, cr3, table);
    assert {} + {cr3} == {cr3} && map[][cr3 := table] == map[cr3 := table];
    assert map[cr3 := table[256..]].Keys == {cr3};
  }

  /**
    What `walk` answers for a path: nothing when a table on the way is missing, and
    otherwise the slot of the page's entry, present or not.
   */
  ghost predicate Finds(words: Words, nodes: Nodes, root: nat, q: seq<nat>, pte: Pte)
    requires |q| == 4
  {
    match pte
    case NoPte => Node(root, q[..3]) !in nodes && Node(root, q) !in nodes
    case Pte(table, index) =>
      && ParentThere(nodes, root, q) && IsTable(words, table) && index < 512
      && table == OwnerTable(nodes, root, q) && index == Last(q)
      && (Present(words[table][index]) <==> Node(root, q) in nodes)
      && (Node(root, q) in nodes ==> words[table][index] == nodes[Node(root, q)])
  }

  /** `walk`: down the levels 3 to 1, giving up at an entry that is not present or huge. */
  method WalkTables(words: Words, ghost nodes: Nodes, ghost roots: set<nat>, pml4: nat, va: nat) returns (pte: Pte)
    requires TreeInv(words, nodes, roots) && pml4 in roots && va < 0x8000_0000_0000
    ensures Finds(words, nodes, pml4, PathOf(va), pte)
  {
    ghost var q := PathOf(va);
    PathOfUser(va);
    PathOfShape(va);
    var table, level := pml4, 3;
    while level >= 1
      invariant 0 <= level <= 3
      invariant ParentThere(nodes, pml4, q[..4 - level]) && table == OwnerTable(nodes, pml4, q[..4 - level])
    {
      WalkStep(words, nodes, roots, pml4, q, 4 - level);
      assert q[3 - level] == IndexAt(va, level);
      var entry := words[table][IndexAt(va, level)];
      if !Present(entry) || Huge(entry) {
        NoTableNoPage(words, nodes, roots, pml4, q, 4 - level);
        NoTableBelow(words, nodes, roots, pml4, q, 4 - level);
        return NoPte;
      }
      table := ReadAddr(entry);
      level := level - 1;
    }
    WalkStep(words, nodes, roots, pml4, q, 4);
    assert q[..4] == q && q[3] == IndexAt(va, 0);
    return Pte(table, IndexAt(va, 0));
  }

  /** `p_vaddr + j * 0x1000`: a signed 32-bit product in a 64-bit sum. */
  function TurnAddress(start: nat, j: nat): nat {
    (start + Int32(j * 0x1000)) % 0x1_0000_0000_0000_0000
  }

  lemma SmallProduct(start: nat, j: nat)
    requires j < 0x8_0000 && start + j * 0x1000 < 0x1_0000_0000_0000_0000
    ensures TurnAddress(start, j) == start + j * 0x1000
  {}

  class Memory {
    /** Entries of the frames that serve as tables. */
    var words: Words
    /** Contents of the frames that serve as pages. */
    var bytes: Contents
    const ba: Frames.BitmapAllocator
    /** What the tables and the allocator mean. */
    ghost var a: Spaces

    /** Keeps `Inside` out of proofs that do not need it; see `Open`. */
    ghost const seal: nat

    ghost predicate Valid()
      reads this, ba.Repr
    {
      && this !in ba.Repr && SpacesInv(a) && Backed(a, bytes)
      && (Sealed(seal) ==> Inside())
    }

    ghost predicate Inside()
      reads this, ba.Repr
    {
      ba.Valid() && Agree(words, a, ba.view)
    }

    lemma Open()
      requires Valid()
      ensures Inside()
    {
      AlwaysSealed(seal);
    }

    /** The state the boot code leaves. */
    constructor (ba: Frames.BitmapAllocator, cr3: nat, table: seq<nat>, bytes: Contents)
      requires ba.Valid()
      requires |table| == 512 && forall i | 0 <= i < 256 :: !Present(table[i])
      requires cr3 in Frames.Managed(ba.view) ==> cr3 in Frames.Used(ba.view)
      requires forall f | f in Frames.Managed(ba.view) :: f in bytes && |bytes[f]| == 0x1000
      ensures Valid() && this.ba == ba && this.bytes == bytes
      ensures a == BootSpaces(ba.view, cr3, table)
    {
      BootAgrees(ba.view, cr3, table);
      this.ba := ba;
      words := map[cr3 := table];
      this.bytes := bytes;
      a := BootSpaces(ba.view, cr3, table);
    }

    /** The allocator has no page left to give. */
    ghost predicate OutOfFrames()
      reads ba
    {
      !Frames.Allocate(ba.view).0.Page?
    }

    /** Changes to this object alone leave the allocator as it was. */
    twostate lemma AllocatorUntouched()
      requires old(ba.Valid()) && unchanged(ba.Repr)
      ensures ba.Valid() && ba.view == old(ba.view)
    {
      assert forall i | 0 <= i < |ba.areas| :: ba.areas[i] in ba.Repr && ba.areas[i].data in ba.Repr;
    }

    /** Puts new table contents in place, `meaning` being what they mean. */
    method WriteWords(contents: Words, ghost meaning: Spaces)
      requires ba.Valid() && this !in ba.Repr
      requires Agree(contents, meaning, ba.view) && Backed(meaning, bytes)
      modifies `words, `a
      ensures Valid() && words == contents && a == meaning
    {
      words := contents;
      a := meaning;
      AllocatorUntouched();
    }

    /**
      `alloc_page_or_halt` for the entry at the end of `q`.  Without a page nothing
      has changed when the machine halts.
     */
    method AllocPageOrHalt(ghost root: nat, ghost q: seq<nat>, ghost flags: nat) returns (r: Frames.Allocation)
      requires Valid() && GoodFlags(flags)
      requires root in a.upper && UserPath(q) && ParentThere(a.nodes, root, q) && Node(root, q) !in a.nodes
      modifies ba.Repr
      ensures ba.Valid()
      ensures !r.Page? ==> Valid() && OutOfFrames()
      ensures r.Page? ==>
        var b := WithNode(a, Node(root, q), r.addr, flags);
        && Grows(a, b, {Node(root, q)}, flags) && Backed(b, bytes)
        && IsTable(words, OwnerTable(a.nodes, root, q)) && Last(q) < 512
        && FrameOf(MakeEntry(r.addr, flags)) == r.addr != OwnerTable(a.nodes, root, q)
        && Agree(Inserted(words, a.nodes, root, q, MakeEntry(r.addr, flags)), b, ba.view)
    {
      Open();
      ghost var v := ba.view;
      if Frames.Allocate(v).0.Page? {
        InstallKeeps(words, a, v, root, q, flags);
      }
      r := ba.AllocatePage();
    }

    /** Takes a frame, clears it if it becomes a table, and stores it in an entry that is not present. */
    method Install(ghost root: nat, ghost q: seq<nat>, table: nat, index: nat, flags: nat, clear: bool)
      returns (halted: bool)
      requires Valid() && root in a.upper && UserPath(q) && ParentThere(a.nodes, root, q) && GoodFlags(flags)
      requires table == OwnerTable(a.nodes, root, q) && index == Last(q) && (clear <==> |q| < 4)
      requires Node(root, q) !in a.nodes
      modifies `words, `a, ba.Repr
      ensures Valid()
      ensures halted ==> a == old(a) && OutOfFrames()
      ensures !halted ==> Grows(old(a), a, {Node(root, q)}, flags)
    {
      var r := AllocPageOrHalt(root, q, flags);
      if !r.Page? {
        return true;
      }
      InsertedIsStore(words, a.nodes, root, q, MakeEntry(r.addr, flags), table, index, clear);
      WriteWords(StoreEntry(words, table, index, MakeEntry(r.addr, flags), clear),
                 WithNode(a, Node(root, q), r.addr, flags));
      return false;
    }

    /** One level of `map_memory_page`: installs a frame if the entry is not present. */
    method Ensure(ghost root: nat, ghost q: seq<nat>, table: nat, index: nat, flags: nat, clear: bool)
      returns (halted: bool)
      requires Valid() && root in a.upper && UserPath(q) && ParentThere(a.nodes, root, q) && GoodFlags(flags)
      requires table == OwnerTable(a.nodes, root, q) && index == Last(q) && (clear <==> |q| < 4)
      modifies `words, `a, ba.Repr
      ensures Valid()
      ensures halted ==> a == old(a) && OutOfFrames()
      ensures !halted ==> Grows(old(a), a, {Node(root, q)}, flags)
    {
      SlotOf(root, q);
      if !Present(words[table][index]) {
        halted := Install(root, q, table, index, flags, clear);
        return;
      }
      AlreadyThere(a, Node(root, q), flags);
      return false;
    }

    /** The slot a path's last entry lives in. */
    lemma SlotOf(root: nat, q: seq<nat>)
      requires Valid() && root in a.upper && UserPath(q) && ParentThere(a.nodes, root, q)
      ensures IsTable(words, OwnerTable(a.nodes, root, q)) && Last(q) < 512
      ensures Present(words[OwnerTable(a.nodes, root, q)][Last(q)]) <==> Node(root, q) in a.nodes
    {
      Open();
      EntryIsSlot(words, a.nodes, a.upper.Keys, root, q);
    }

    /** A present entry, as the next level of the code reads it. */
    lemma EntryWord(root: nat, q: seq<nat>)
      requires Valid() && Node(root, q) in a.nodes
      ensures root in a.upper && UserPath(q) && ParentThere(a.nodes, root, q)
      ensures IsTable(words, OwnerTable(a.nodes, root, q)) && Last(q) < 512
      ensures words[OwnerTable(a.nodes, root, q)][Last(q)] == a.nodes[Node(root, q)]
      ensures GoodEntry(a.nodes[Node(root, q)])
    {
      Open();
      EntryWordIn(words, a.nodes, a.upper.Keys, root, q);
    }

    /** A level of the mapping code on top of the levels done since `before`, and the table it leads to. */
    method Level(ghost before: Spaces, ghost more: set<Node>, ghost root: nat, ghost q: seq<nat>,
                 table: nat, index: nat, flags: nat, clear: bool)
      returns (halted: bool, next: nat)
      requires Valid() && SpacesInv(before) && Grows(before, a, more, flags)
      requires root in a.upper && UserPath(q) && ParentThere(a.nodes, root, q) && GoodFlags(flags)
      requires table == OwnerTable(a.nodes, root, q) && index == Last(q) && (clear <==> |q| < 4)
      modifies `words, `a, ba.Repr
      ensures Valid()
      ensures halted ==> OutOfFrames() && Grows(before, a, more, flags)
      ensures !halted ==>
        && Grows(before, a, more + {Node(root, q)}, flags)
        && Node(root, q) in a.nodes && next == FrameOf(a.nodes[Node(root, q)])
    {
      ghost var mid := a;
      next := 0;
      halted := Ensure(root, q, table, index, flags, clear);
      if !halted {
        GrowsTwice(before, mid, a, more, {Node(root, q)}, flags);
        EntryWord(root, q);
        next := FrameOf(words[table][index]);
      }
    }

    /**
      Maps the page at the end of four indices, taking frames for it and for the
      tables on the way where they are missing.
     */
    method MapPath(cr3: nat, pml4Index: nat, pdpIndex: nat, pdIndex: nat, ptIndex: nat, flags: nat)
      returns (halted: bool, ghost more: set<Node>)
      requires Valid() && cr3 in a.upper && UserPath([pml4Index, pdpIndex, pdIndex, ptIndex]) && GoodFlags(flags)
      modifies `words, `a, ba.Repr
      ensures Valid()
      ensures more <= PrefixNodes(cr3, [pml4Index, pdpIndex, pdIndex, ptIndex]) && Grows(old(a), a, more, flags)
      ensures if halted then OutOfFrames() else more == PrefixNodes(cr3, [pml4Index, pdpIndex, pdIndex, ptIndex])
    {
      ghost var q := [pml4Index, pdpIndex, pdIndex, ptIndex];
      Prefixes(q);
      PrefixSum(cr3, q);
      GrowsNothing(a, flags);
      more := {};
      var pdp, pd, pt, page;
      halted, pdp := Level(a, more, cr3, q[..1], cr3, pml4Index, flags, true);
      if halted { return; }
      more := more + {Node(cr3, q[..1])};
      halted, pd := Level(old(a), more, cr3, q[..2], pdp, pdpIndex, flags, true);
      if halted { return; }
      more := more + {Node(cr3, q[..2])};
      halted, pt := Level(old(a), more, cr3, q[..3], pd, pdIndex, flags, true);
      if halted { return; }
      more := more + {Node(cr3, q[..3])};
      halted, page := Level(old(a), more, cr3, q, pt, ptIndex, flags, false);
      if halted { return; }
      more := more + {Node(cr3, q)};
    }

    /** `map_memory_page`: the indices are bits 39, 30, 21 and 12 of the address and up. */
    method MapMemoryPage(cr3: nat, virt: nat, flags: nat) returns (halted: bool, ghost more: set<Node>)
      requires Valid() && cr3 in a.upper && virt < 0x8000_0000_0000 && GoodFlags(flags)
      modifies `words, `a, ba.Repr
      ensures Valid()
      ensures more <= PrefixNodes(cr3, PathOf(virt)) && Grows(old(a), a, more, flags)
      ensures if halted then OutOfFrames() else more == PrefixNodes(cr3, PathOf(virt))
    {
      PathOfUser(virt);
      PathOfShape(virt);
      halted, more := MapPath(cr3, virt / 0x80_0000_0000 % 512, virt / 0x4000_0000 % 512,
                              virt / 0x20_0000 % 512, virt / 0x1000 % 512, flags);
    }

    lemma RootTable(cr3: nat)
      requires Valid() && cr3 in a.upper
      ensures IsTable(words, cr3) && words[cr3][256..] == a.upper[cr3]
    {
      Open();
    }

    /** Fork's new root; the source takes for granted that there is a frame left. */
    method NewRoot(cr3: nat) returns (r: nat)
      requires Valid() && cr3 in a.upper && !OutOfFrames()
      modifies `words, `a, ba.Repr
      ensures Valid() && CanRoot(old(a), cr3, r) && a == WithRoot(old(a), cr3, r)
      ensures r in words && |words[r]| == 512 && cr3 in old(words) && |old(words)[cr3]| == 512
      ensures forall i | 0 <= i < 512 :: words[r][i] == if i < 256 then 0 else old(words)[cr3][i]
    {
      RootTable(cr3);
      var table := MirrorUpper(words[cr3]);
      Open();
      NewRootKeeps(words, a, ba.view, cr3, table);
      var page := ba.AllocatePage();
      r := page.addr;
      StillBacked(a, WithRoot(a, cr3, r), bytes);
      WriteWords(words[r := table], WithRoot(a, cr3, r));
    }

    method Walk(pml4: nat, va: nat) returns (pte: Pte)
      requires Valid() && pml4 in a.upper && va < 0x8000_0000_0000
      ensures Finds(words, a.nodes, pml4, PathOf(va), pte)
    {
      Open();
      pte := WalkTables(words, a.nodes, a.upper.Keys, pml4, va);
    }

    /** One turn of the loop of `free_region`. */
    method FreeOne(cr3: nat, va: nat)
      requires Valid() && cr3 in a.upper && va < 0x8000_0000_0000
      modifies `words, `a, ba.Repr
      ensures Valid() && Shrinks(old(a), a, {Node(cr3, PathOf(va))})
    {
      Open();
      var pte := Walk(cr3, va);
      if pte.NoPte? || !Present(words[pte.table][pte.index]) {
        NothingToDrop(a, Node(cr3, PathOf(va)));
        return;
      }
      ghost var q := PathOf(va);
      RemoveKeeps(words, a, ba.view, cr3, q);
      GoodEntryAddr(a.nodes[Node(cr3, q)]);
      ba.FreePage(ReadAddr(words[pte.table][pte.index]));
      StillBacked(a, WithoutNode(a, Node(cr3, q)), bytes);
      WriteWords(ClearEntry(words, pte.table, pte.index), WithoutNode(a, Node(cr3, q)));
    }

    /** The next page of the loop of `free_region`, on top of the pages freed since `before`. */
    method FreeNext(ghost before: Spaces, ghost done: set<Node>, cr3: nat, va: nat)
      requires Valid() && cr3 in a.upper && va < 0x8000_0000_0000
      requires SpacesInv(before) && Shrinks(before, a, done)
      modifies `words, `a, ba.Repr
      ensures Valid() && Shrinks(before, a, done + {Node(cr3, PathOf(va))})
    {
      ghost var mid := a;
      FreeOne(cr3, va);
      ShrinksTwice(before, mid, a, done, {Node(cr3, PathOf(va))});
    }

    /** `free_region`: unmaps every page of the range and gives its frame back; tables stay. */
    method FreeRegion(cr3: nat, start: nat, end: nat)
      requires Valid() && cr3 in a.upper && end <= 0x8000_0000_0000
      modifies `words, `a, ba.Repr
      ensures Valid() && Shrinks(old(a), a, RegionPages(cr3, RoundDown(start), Turns(RoundDown(start), end)))
    {
      var first := start / 0x1000 * 0x1000;
      ghost var before, k: nat := a, 0;
      ShrinksNothing(a);
      var va := first;
      while va < end
        invariant Valid() && before.upper == a.upper
        invariant va == first + k * 0x1000 && (k > 0 ==> va < end + 0x1000)
        invariant Shrinks(before, a, RegionPages(cr3, first, k))
        decreases end - va
      {
        FreeNext(before, RegionPages(cr3, first, k), cr3, va);
        va, k := va + 0x1000, k + 1;
      }
      TurnsAre(first, end, k);
    }

    /** Turn `k` of a loop that maps pages from `first` on, on top of the turns since `before`. */
    method AllocateNext(ghost before: Spaces, ghost first: nat, ghost k: nat, cr3: nat, va: nat, flags: nat)
      returns (halted: bool, ghost more: set<Node>)
      requires Valid() && cr3 in a.upper && va == first + k * 0x1000 < 0x8000_0000_0000 && GoodFlags(flags)
      requires SpacesInv(before) && Grows(before, a, RegionNodes(cr3, first, k), flags)
      modifies `words, `a, ba.Repr
      ensures Valid() && Grows(before, a, more, flags)
      ensures if halted then OutOfFrames() else more == RegionNodes(cr3, first, k + 1)
    {
      halted, more := MapOneMore(before, RegionNodes(cr3, first, k), cr3, va, flags);
      OneTurnMore(cr3, first, k);
    }

    lemma OneTurnMore(cr3: nat, first: nat, k: nat)
      ensures RegionNodes(cr3, first, k + 1) == RegionNodes(cr3, first, k) + PrefixNodes(cr3, PathOf(first + k * 0x1000))
    {}

    /** One page more, on top of the nodes `some` that are there since `before`. */
    method MapOneMore(ghost before: Spaces, ghost some: set<Node>, cr3: nat, va: nat, flags: nat)
      returns (halted: bool, ghost more: set<Node>)
      requires Valid() && cr3 in a.upper && va < 0x8000_0000_0000 && GoodFlags(flags)
      requires SpacesInv(before) && Grows(before, a, some, flags)
      modifies `words, `a, ba.Repr
      ensures Valid() && Grows(before, a, more, flags)
      ensures if halted then OutOfFrames() else more == some + PrefixNodes(cr3, PathOf(va))
    {
      ghost var mid := a;
      halted, more := MapMemoryPage(cr3, va, flags);
      GrowsTwice(before, mid, a, some, more, flags);
      more := some + more;
    }

    /**
      The inner loop of `map_elf`: maps `count` pages, the first being the one that holds
      `start`.  The product is an `int`, which up to 2^31 bytes does not matter.
     */
    method MapPages(cr3: nat, start: nat, count: nat, flags: nat) returns (halted: bool, ghost more: set<Node>)
      requires Valid() && cr3 in a.upper && start + count * 0x1000 <= 0x8000_0000_0000 && GoodFlags(flags)
      requires count <= 0x8_0000
      modifies `words, `a, ba.Repr
      ensures Valid() && Grows(old(a), a, more, flags)
      ensures if halted then OutOfFrames() else more == RegionNodes(cr3, start, count)
    {
      ghost var before := a;
      GrowsNothing(a, flags);
      more := {};
      halted := false;
      var j := 0;
      while j < count
        invariant 0 <= j <= count && Valid() && before.upper == a.upper
        invariant more == RegionNodes(cr3, start, j) && Grows(before, a, more, flags)
      {
        SmallProduct(start, j);
        halted, more := AllocateNext(before, start, j, cr3, TurnAddress(start, j), flags);
        if halted { return; }
        j := j + 1;
      }
    }

    /** `allocate_region`: maps every page of the range; halts when the frames run out. */
    method AllocateRegion(cr3: nat, start: nat, end: nat, flags: nat) returns (halted: bool, ghost more: set<Node>)
      requires Valid() && cr3 in a.upper && end <= 0x8000_0000_0000 && GoodFlags(flags)
      modifies `words, `a, ba.Repr
      ensures Valid() && Grows(old(a), a, more, flags)
      ensures if halted then OutOfFrames()
              else more == RegionNodes(cr3, RoundDown(start), Turns(RoundDown(start), end))
    {
      halted, more := AllocateFrom(cr3, start / 0x1000 * 0x1000, end, flags);
    }

    /** The loop of `allocate_region`. */
    method AllocateFrom(cr3: nat, first: nat, end: nat, flags: nat) returns (halted: bool, ghost more: set<Node>)
      requires Valid() && cr3 in a.upper && end <= 0x8000_0000_0000 && GoodFlags(flags)
      modifies `words, `a, ba.Repr
      ensures Valid() && Grows(old(a), a, more, flags)
      ensures if halted then OutOfFrames() else more == RegionNodes(cr3, first, Turns(first, end))
    {
      ghost var before, k: nat := a, 0;
      GrowsNothing(a, flags);
      more := {};
      halted := false;
      var va := first;
      while va < end
        invariant Valid() && before.upper == a.upper
        invariant va == first + k * 0x1000 && (k > 0 ==> va < end + 0x1000)
        invariant more == RegionNodes(cr3, first, k) && Grows(before, a, more, flags)
        decreases end - va
      {
        halted, more := AllocateNext(before, first, k, cr3, va, flags);
        if halted { return; }
        va, k := va + 0x1000, k + 1;
      }
      TurnsAre(first, end, k);
    }

    /** One turn of the loop of `copy_pages_between_pagetables`. */
    method CopyOne(dst: nat, src: nat, va: nat) returns (done: bool)
      requires Valid() && dst in a.upper && src in a.upper && va < 0x8000_0000_0000
      modifies `bytes
      ensures Valid()
      ensures done <==> Mapped(a, src, va) && Mapped(a, dst, va)
      ensures bytes == if done then old(bytes)[FrameAt(a, dst, va) := PageAt(a, old(bytes), src, va)] else old(bytes)
    {
      var srcPte := Walk(src, va);
      if srcPte.NoPte? || !Present(words[srcPte.table][srcPte.index]) {
        return false;
      }
      var dstPte := Walk(dst, va);
      if dstPte.NoPte? || !Present(words[dstPte.table][dstPte.index]) {
        return false;
      }
      MappedEntry(src, va);
      MappedEntry(dst, va);
      WriteBytes(bytes[ReadAddr(words[dstPte.table][dstPte.index]) := bytes[ReadAddr(words[srcPte.table][srcPte.index])]]);
      return true;
    }

    lemma MappedEntry(root: nat, va: nat)
      requires Valid() && Mapped(a, root, va)
      ensures ReadAddr(a.nodes[Node(root, PathOf(va))]) == FrameAt(a, root, va)
      ensures FrameAt(a, root, va) in bytes && bytes[FrameAt(a, root, va)] == PageAt(a, bytes, root, va)
    {
      MappedFrameInUse(a, root, va);
      GoodEntryAddr(a.nodes[Node(root, PathOf(va))]);
    }

    /** Puts new page contents in place. */
    method WriteBytes(contents: Contents)
      requires Valid() && Backed(a, contents)
      modifies `bytes
      ensures Valid() && bytes == contents
    {
      Open();
      bytes := contents;
      AllocatorUntouched();
    }

    /** Turn `k` of the copy loop, on top of what was copied since `before`. */
    method CopyNext(ghost before: Contents, dst: nat, src: nat, ghost start: nat, ghost k: nat, va: nat, copied: nat)
      returns (count: nat)
      requires Valid() && dst in a.upper && src in a.upper && va == start + k * 0x1000 < 0x8000_0000_0000
      requires Backed(a, before) && Copied(a, before, bytes, dst, src, start, k)
      requires copied == |SharedPages(a, dst, src, start, k)|
      modifies `bytes
      ensures Valid() && Copied(a, before, bytes, dst, src, start, k + 1)
      ensures count == |SharedPages(a, dst, src, start, k + 1)|
    {
      SharedStep(a, dst, src, start, k, va);
      ghost var mid := bytes;
      var done := CopyOne(dst, src, va);
      CopiedMore(a, before, mid, bytes, dst, src, start, k, va);
      count := if done then copied + 1 else copied;
    }

    /**
      `copy_pages_between_pagetables`: copies the contents of every page of the range
      mapped in both spaces, and returns how many there were.
     */
    method CopyPages(dst: nat, src: nat, start: nat, len: nat) returns (copied: nat)
      requires Valid() && dst in a.upper && src in a.upper && start + len <= 0x8000_0000_0000
      modifies `bytes
      ensures Valid() && Copied(a, old(bytes), bytes, dst, src, start, Turns(start, start + len))
      ensures copied == |SharedPages(a, dst, src, start, Turns(start, start + len))|
    {
      ghost var before, k: nat := bytes, 0;
      copied := 0;
      CopiedNothing(a, bytes, dst, src, start);
      var va := start;
      while va < start + len
        invariant Valid() && Backed(a, before)
        invariant va == start + k * 0x1000 && (k > 0 ==> k * 0x1000 < len + 0x1000)
        invariant Copied(a, before, bytes, dst, src, start, k) && copied == |SharedPages(a, dst, src, start, k)|
        decreases start + len - va
      {
        copied := CopyNext(before, dst, src, start, k, va, copied);
        va, k := va + 0x1000, k + 1;
      }
      TurnsAre(start, start + len, k);
    }

    /** A byte read at a mapped address of a space. */
    method LoadByte(cr3: nat, va: nat) returns (value: byte)
      requires Valid() && va < 0x8000_0000_0000 && Mapped(a, cr3, va)
      ensures value == ByteAt(a, bytes, cr3, va)
    {
      assert cr3 in a.upper;
      var pte := Walk(cr3, va);
      MappedEntry(cr3, va);
      value := bytes[ReadAddr(words[pte.table][pte.index])][va % 0x1000];
    }

    /** Bytes read from mapped addresses of the current space on. */
    method LoadBytes(cr3: nat, va: nat, n: nat) returns (data: seq<byte>)
      requires Valid() && va + n <= 0x8000_0000_0000 && AllMapped(a, cr3, va, va + n)
      ensures |data| == n && forall i | 0 <= i < n :: data[i] == ByteAt(a, bytes, cr3, va + i)
    {
      data := [];
      while |data| < n
        invariant |data| <= n && forall i | 0 <= i < |data| :: data[i] == ByteAt(a, bytes, cr3, va + i)
      {
        var value := LoadByte(cr3, va + |data|);
        data := data + [value];
      }
    }

    /** A byte stored at a mapped address of a space. */
    method StoreByte(cr3: nat, va: nat, value: byte)
      requires Valid() && va < 0x8000_0000_0000 && Mapped(a, cr3, va)
      requires FrameAt(a, cr3, va) in bytes && |bytes[FrameAt(a, cr3, va)]| == 0x1000
      requires Backed(a, StoreInFrame(bytes, FrameAt(a, cr3, va), va % 0x1000, value))
      modifies `bytes
      ensures Valid() && bytes == StoreInFrame(old(bytes), FrameAt(a, cr3, va), va % 0x1000, value)
    {
      assert cr3 in a.upper;
      var pte := Walk(cr3, va);
      MappedEntry(cr3, va);
      WriteBytes(StoreInFrame(bytes, ReadAddr(words[pte.table][pte.index]), va % 0x1000, value));
    }

    /** Byte `i` of a longer store, on top of those stored since `before`. */
    method StoreNext(ghost before: Contents, cr3: nat, ghost base: nat, va: nat, value: byte,
                     ghost data: seq<byte>, ghost i: nat)
      requires Valid() && i < |data| && va == base + i < 0x8000_0000_0000 && value == data[i] && Mapped(a, cr3, va)
      requires Backed(a, before) && Written(a, before, bytes, cr3, base, data[..i])
      modifies `bytes
      ensures Valid() && Written(a, before, bytes, cr3, base, data[..i + 1])
    {
      WrittenMore(a, before, bytes, cr3, base, data, i);
      StoreByte(cr3, va, value);
    }

    /**
      `memcpy` and `memset` to mapped addresses of the current space, behind the
      bytes `done` stored at `base` since `before`.
     */
    method StoreBytes(ghost before: Contents, ghost base: nat, ghost done: seq<byte>, cr3: nat, va: nat, data: seq<byte>)
      requires Valid() && va == base + |done| && va + |data| <= 0x8000_0000_0000
      requires AllMapped(a, cr3, va, va + |data|)
      requires Backed(a, before) && Written(a, before, bytes, cr3, base, done)
      modifies `bytes
      ensures Valid() && Written(a, before, bytes, cr3, base, done + data)
    {
      var i := 0;
      ghost var all := done + data;
      assert all[..|done|] == done;
      while i < |data|
        invariant 0 <= i <= |data|
        invariant Valid()
        invariant Written(a, before, bytes, cr3, base, all[..|done| + i])
      {
        StoreNext(before, cr3, base, va + i, data[i], all, |done| + i);
        i := i + 1;
      }
      assert all[..|done| + i] == all;
    }
  }
}
