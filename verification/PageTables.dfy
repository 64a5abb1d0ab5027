/**
  Four-level page tables kept in physical frames.

  `words` maps the address of a frame that serves as a table to its 512 entries.
  `nodes` is what the tables of all address spaces mean: for each present entry of
  the user half, named by its root and the indices leading to it, the entry itself.
  `TreeInv` ties the two together and says that no frame has two owners.
 */
module PageTables {

  /** The entry reached from `root` by one to four indices: a table for up to three, a page for four. */
  datatype Node = Node(root: nat, path: seq<nat>)

  type Words = map<nat, seq<nat>>
  type Nodes = map<Node, nat>

  // -- entries ----------------------------------------------------------------

  predicate Present(e: nat) {
    e % 2 == 1
  }

  /** `entry & ~0xfff`, how the code that writes tables finds the next one. */
  function FrameOf(e: nat): nat {
    e / 0x1000 * 0x1000
  }

  /** `PTE_ADDR(entry)`, bits 12 to 51: how the code that reads tables finds the next one. */
  function ReadAddr(e: nat): nat {
    e / 0x1000 % 0x100_0000_0000 * 0x1000
  }

  predicate Huge(e: nat) {
    e / 128 % 2 == 1
  }

  /** `frame | flags`. */
  function MakeEntry(frame: nat, flags: nat): nat {
    frame + flags
  }

  /** Present, not huge; the callers use 3 and 7. */
  predicate GoodFlags(flags: nat) {
    flags < 128 && flags % 2 == 1
  }

  predicate GoodEntry(e: nat) {
    Present(e) && !Huge(e) && e < 0x10_0000_0000_0000
  }

  lemma WriterAndReaderAgree(frame: nat, flags: nat)
    requires frame % 0x1000 == 0 && frame < 0x10_0000_0000_0000 && GoodFlags(flags)
    ensures GoodEntry(MakeEntry(frame, flags)) && MakeEntry(frame, flags) % 0x1000 == flags
    ensures FrameOf(MakeEntry(frame, flags)) == frame == ReadAddr(MakeEntry(frame, flags))
  {
    var k := frame / 0x1000;
    var e := 0x1000 * k + flags;
    assert e / 0x1000 == k;
    assert e / 128 == 32 * k;
  }

  lemma GoodEntryAddr(e: nat)
    requires GoodEntry(e)
    ensures FrameOf(e) == ReadAddr(e) && FrameOf(e) % 0x1000 == 0 && FrameOf(e) < 0x10_0000_0000_0000
  {}

  /** The shifts and masks of the source, on 64-bit words, are the divisions used here. */
  lemma BitForms(x: bv64, frame: bv64, flags: bv64)
    requires frame & 0xfff == 0 && flags < 0x1000
    ensures x & 1 == x % 2
    ensures x & !0xfff == x / 0x1000 * 0x1000
    ensures x & 0x000F_FFFF_FFFF_F000 == x / 0x1000 % 0x100_0000_0000 * 0x1000
    ensures (x & 0x80 != 0) == (x / 0x80 % 2 == 1)
    ensures frame | flags == frame + flags
    ensures (x >> 39) & 0x1ff == x / 0x80_0000_0000 % 512 && (x >> 30) & 0x1ff == x / 0x4000_0000 % 512
    ensures (x >> 21) & 0x1ff == x / 0x20_0000 % 512 && (x >> 12) & 0x1ff == x / 0x1000 % 512
  {}

  // -- paths ------------------------------------------------------------------

  /** The user half is the lower 256 entries of a root table. */
  ghost predicate UserPath(q: seq<nat>) {
    1 <= |q| <= 4 && q[0] < 256 && forall i | 0 <= i < |q| :: q[i] < 512
  }

  /** The four digits of a page number in base 512, highest first. */
  function Digits(page: nat): (q: seq<nat>)
    ensures |q| == 4 && forall i | 0 <= i < 4 :: q[i] < 512
  {
    [page / 512 / 512 / 512 % 512, page / 512 / 512 % 512, page / 512 % 512, page % 512]
  }

  /** The four indices of an address: the page number in base 512. */
  function PathOf(va: nat): (q: seq<nat>)
    ensures |q| == 4
  {
    Digits(va / 0x1000)
  }

  /** `pt_index`: the index at a level, as `walk` computes it. */
  function IndexAt(va: nat, level: nat): nat
    requires level <= 3
  {
    va / (if level == 0 then 0x1000 else if level == 1 then 0x20_0000 else if level == 2 then 0x4000_0000 else 0x80_0000_0000) % 512
  }

  /** The bits `map_memory_page` takes from the address, and the ones `walk` takes. */
  lemma PathOfShape(va: nat)
    ensures PathOf(va) == [va / 0x80_0000_0000 % 512, va / 0x4000_0000 % 512, va / 0x20_0000 % 512, va / 0x1000 % 512]
    ensures forall i | 0 <= i < 4 :: PathOf(va)[i] == IndexAt(va, 3 - i)
  {
    var p := va / 0x1000;
    assert va / 0x20_0000 == p / 512;
    assert va / 0x4000_0000 == p / 512 / 512;
    assert va / 0x80_0000_0000 == p / 512 / 512 / 512;
  }

  lemma PathOfUser(va: nat)
    requires va < 0x8000_0000_0000
    ensures UserPath(PathOf(va))
  {
    PathOfShape(va);
  }

  /** Two user addresses have the same path exactly when they lie in the same page. */
  lemma PathOfInjective(a: nat, b: nat)
    requires a < 0x8000_0000_0000 && b < 0x8000_0000_0000
    ensures PathOf(a) == PathOf(b) <==> a / 0x1000 == b / 0x1000
  {
    DigitsInjective(a / 0x1000, b / 0x1000);
  }

  lemma DigitsInjective(a: nat, b: nat)
    requires a < 0x10_0000_0000 && b < 0x10_0000_0000
    ensures Digits(a) == Digits(b) <==> a == b
  {
    if Digits(a) == Digits(b) {
      assert Digits(a)[0] == Digits(b)[0] && Digits(a)[1] == Digits(b)[1];
      assert Digits(a)[2] == Digits(b)[2] && Digits(a)[3] == Digits(b)[3];
    }
  }

  function Parent(q: seq<nat>): seq<nat>
    requires q != []
  {
    q[..|q| - 1]
  }

  lemma Prefixes(q: seq<nat>)
    requires |q| == 4
    ensures q[..4] == q
    ensures Parent(q[..2]) == q[..1] && Parent(q[..3]) == q[..2] && Parent(q) == q[..3]
    ensures Last(q[..1]) == q[0] && Last(q[..2]) == q[1] && Last(q[..3]) == q[2] && Last(q) == q[3]
    ensures UserPath(q) ==> UserPath(q[..1]) && UserPath(q[..2]) && UserPath(q[..3])
  {}

  function Last(q: seq<nat>): nat
    requires q != []
  {
    q[|q| - 1]
  }

  // -- what the tables say ----------------------------------------------------

  /** The entry at the end of a path, or 0 when some entry on the way is not present. */
  ghost function Entry(words: Words, root: nat, q: seq<nat>): nat
    requires q != []
    decreases |q|
  {
    if |q| > 1 && Entry(words, root, Parent(q)) == 0 then 0
    else Slot(words, TableFor(words, root, q), Last(q))
  }

  /** The table that holds the last entry of a path. */
  ghost function TableFor(words: Words, root: nat, q: seq<nat>): nat
    requires q != []
    decreases |q|, 0
  {
    if |q| == 1 then root else FrameOf(Entry(words, root, Parent(q)))
  }

  /** A present entry of a table, or 0. */
  ghost function Slot(words: Words, table: nat, i: nat): nat {
    if table in words && i < |words[table]| && Present(words[table][i]) then words[table][i] else 0
  }

  ghost function Lookup(nodes: Nodes, root: nat, q: seq<nat>): nat {
    if Node(root, q) in nodes then nodes[Node(root, q)] else 0
  }

  ghost predicate IsTable(words: Words, table: nat) {
    table in words && |words[table]| == 512
  }

  ghost predicate GoodNode(words: Words, nodes: Nodes, roots: set<nat>, n: Node)
    requires n in nodes
  {
    && n.root in roots && UserPath(n.path) && GoodEntry(nodes[n]) && FrameOf(nodes[n]) !in roots
    && (|n.path| < 4 ==> IsTable(words, FrameOf(nodes[n])))
  }

  /** No frame is reached by two paths, be it as a table or as a page. */
  ghost predicate OneOwner(nodes: Nodes) {
    forall a, b {:trigger SameFrame(nodes[a], nodes[b])} |
      a in nodes && b in nodes && SameFrame(nodes[a], nodes[b]) :: a == b
  }

  ghost predicate SameFrame(x: nat, y: nat) {
    FrameOf(x) == FrameOf(y)
  }

  lemma OwnerOf(nodes: Nodes, a: Node, b: Node)
    requires OneOwner(nodes) && a in nodes && b in nodes && FrameOf(nodes[a]) == FrameOf(nodes[b])
    ensures a == b
  {
    assert SameFrame(nodes[a], nodes[b]);
  }

  lemma OneOwnerInsert(nodes: Nodes, n: Node, e: nat)
    requires OneOwner(nodes) && forall m | m in nodes :: FrameOf(nodes[m]) != FrameOf(e)
    ensures OneOwner(nodes[n := e])
  {
    var nodes' := nodes[n := e];
    forall a, b | a in nodes' && b in nodes' && SameFrame(nodes'[a], nodes'[b]) ensures a == b {
      if a != n && b != n {
        OwnerOf(nodes, a, b);
      }
    }
  }

  lemma OneOwnerRemove(nodes: Nodes, less: set<Node>)
    requires OneOwner(nodes)
    ensures OneOwner(nodes - less)
  {
    var nodes' := nodes - less;
    forall a, b | a in nodes' && b in nodes' && SameFrame(nodes'[a], nodes'[b]) ensures a == b {
      OwnerOf(nodes, a, b);
    }
  }

  ghost predicate TreeInv(words: Words, nodes: Nodes, roots: set<nat>) {
    && (forall r | r in roots :: IsTable(words, r))
    && (forall n | n in nodes :: GoodNode(words, nodes, roots, n))
    && OneOwner(nodes)
    && (forall r, q {:trigger Entry(words, r, q)} | r in roots && UserPath(q) :: Entry(words, r, q) == Lookup(nodes, r, q))
  }

  /** The table a path's last entry lives in, read off the nodes. */
  ghost function OwnerTable(nodes: Nodes, root: nat, q: seq<nat>): nat
    requires q != []
  {
    if |q| == 1 then root else FrameOf(Lookup(nodes, root, Parent(q)))
  }

  ghost predicate ParentThere(nodes: Nodes, root: nat, q: seq<nat>)
    requires q != []
  {
    |q| == 1 || Node(root, Parent(q)) in nodes
  }

  lemma ParentIsUser(q: seq<nat>)
    requires UserPath(q) && |q| > 1
    ensures UserPath(Parent(q))
  {}

  /** A path's last entry is the word of its owner table. */
  lemma EntryIsSlot(words: Words, nodes: Nodes, roots: set<nat>, r: nat, q: seq<nat>)
    requires TreeInv(words, nodes, roots) && r in roots && UserPath(q) && ParentThere(nodes, r, q)
    ensures IsTable(words, OwnerTable(nodes, r, q)) && Last(q) < 512
    ensures Entry(words, r, q) == Slot(words, OwnerTable(nodes, r, q), Last(q)) == Lookup(nodes, r, q)
  {
    if |q| > 1 {
      ParentIsUser(q);
      assert Entry(words, r, Parent(q)) == Lookup(nodes, r, Parent(q));
      assert GoodNode(words, nodes, roots, Node(r, Parent(q)));
    }
  }

  lemma DeepTableIsNoRoot(words: Words, nodes: Nodes, roots: set<nat>, r: nat, q: seq<nat>)
    requires TreeInv(words, nodes, roots) && UserPath(q) && ParentThere(nodes, r, q)
    ensures |q| > 1 ==> OwnerTable(nodes, r, q) !in roots
  {
    if |q| > 1 {
      assert GoodNode(words, nodes, roots, Node(r, Parent(q)));
    }
  }

  lemma EntryWordIn(words: Words, nodes: Nodes, roots: set<nat>, r: nat, q: seq<nat>)
    requires TreeInv(words, nodes, roots) && Node(r, q) in nodes
    ensures r in roots && UserPath(q) && ParentThere(nodes, r, q)
    ensures IsTable(words, OwnerTable(nodes, r, q)) && Last(q) < 512
    ensures words[OwnerTable(nodes, r, q)][Last(q)] == nodes[Node(r, q)] && GoodEntry(nodes[Node(r, q)])
  {
    assert GoodNode(words, nodes, roots, Node(r, q));
    ChildHasParent(words, nodes, roots, r, q);
    EntryIsSlot(words, nodes, roots, r, q);
  }

  /** One level down a path of four, as the reader goes: what it finds in slot k - 1. */
  lemma WalkStep(words: Words, nodes: Nodes, roots: set<nat>, r: nat, q: seq<nat>, k: nat)
    requires TreeInv(words, nodes, roots) && r in roots && UserPath(q) && |q| == 4
    requires 1 <= k <= 4 && ParentThere(nodes, r, q[..k])
    ensures IsTable(words, OwnerTable(nodes, r, q[..k])) && q[k - 1] < 512
    ensures var e := words[OwnerTable(nodes, r, q[..k])][q[k - 1]];
      && (Present(e) <==> Node(r, q[..k]) in nodes)
      && (Present(e) ==> GoodEntry(e) && e == nodes[Node(r, q[..k])])
      && (Present(e) && k < 4 ==> ParentThere(nodes, r, q[..k + 1]) && OwnerTable(nodes, r, q[..k + 1]) == ReadAddr(e))
  {
    assert UserPath(q[..k]) && Last(q[..k]) == q[k - 1];
    EntryIsSlot(words, nodes, roots, r, q[..k]);
    if Node(r, q[..k]) in nodes {
      assert GoodNode(words, nodes, roots, Node(r, q[..k]));
      GoodEntryAddr(nodes[Node(r, q[..k])]);
      if k < 4 {
        assert Parent(q[..k + 1]) == q[..k];
      }
    }
  }

  /** Nothing is mapped below a table that is not there. */
  lemma NoTableNoPage(words: Words, nodes: Nodes, roots: set<nat>, r: nat, q: seq<nat>, k: nat)
    requires TreeInv(words, nodes, roots) && r in roots && UserPath(q) && |q| == 4 && 1 <= k <= 4
    requires Node(r, q[..k]) !in nodes
    ensures Node(r, q) !in nodes
    decreases 4 - k
  {
    if k == 4 {
      assert q[..4] == q;
    } else {
      assert UserPath(q[..k + 1]) && Parent(q[..k + 1]) == q[..k];
      if Node(r, q[..k + 1]) in nodes {
        ChildHasParent(words, nodes, roots, r, q[..k + 1]);
      }
      NoTableNoPage(words, nodes, roots, r, q, k + 1);
    }
  }

  lemma NoTableBelow(words: Words, nodes: Nodes, roots: set<nat>, r: nat, q: seq<nat>, k: nat)
    requires TreeInv(words, nodes, roots) && r in roots && UserPath(q) && |q| == 4 && 1 <= k <= 3
    requires Node(r, q[..k]) !in nodes
    ensures Node(r, q[..3]) !in nodes
    decreases 3 - k
  {
    if k < 3 {
      assert UserPath(q[..k + 1]) && Parent(q[..k + 1]) == q[..k];
      if Node(r, q[..k + 1]) in nodes {
        ChildHasParent(words, nodes, roots, r, q[..k + 1]);
      }
      NoTableBelow(words, nodes, roots, r, q, k + 1);
    }
  }

  /** Different paths that end in the same slot of the same table are the same path. */
  lemma SlotIdentifies(words: Words, nodes: Nodes, roots: set<nat>, r: nat, q: seq<nat>, r': nat, q': seq<nat>)
    requires TreeInv(words, nodes, roots) && r in roots && r' in roots && UserPath(q) && UserPath(q')
    requires ParentThere(nodes, r, q) && ParentThere(nodes, r', q')
    ensures OwnerTable(nodes, r, q) == OwnerTable(nodes, r', q') && Last(q) == Last(q') <==> r == r' && q == q'
  {
    if OwnerTable(nodes, r, q) == OwnerTable(nodes, r', q') && Last(q) == Last(q') {
      if |q| > 1 {
        assert GoodNode(words, nodes, roots, Node(r, Parent(q)));
      }
      if |q'| > 1 {
        assert GoodNode(words, nodes, roots, Node(r', Parent(q')));
      }
      if |q| > 1 && |q'| > 1 {
        OwnerOf(nodes, Node(r, Parent(q)), Node(r', Parent(q')));
      }
      assert q == (if |q| == 1 then [] else Parent(q)) + [Last(q)];
      assert q' == (if |q'| == 1 then [] else Parent(q')) + [Last(q')];
    }
  }

  lemma ChildHasParent(words: Words, nodes: Nodes, roots: set<nat>, r: nat, q: seq<nat>)
    requires TreeInv(words, nodes, roots) && r in roots && UserPath(q) && Node(r, q) in nodes
    ensures ParentThere(nodes, r, q)
  {
    assert GoodNode(words, nodes, roots, Node(r, q));
    assert Entry(words, r, q) == Lookup(nodes, r, q);
    if |q| > 1 {
      ParentIsUser(q);
      assert Entry(words, r, Parent(q)) == Lookup(nodes, r, Parent(q));
    }
  }

  /** One level of the recursion of `Entry`, once its parent's entry is known. */
  lemma EntryStep(words: Words, nodes: Nodes, r: nat, q: seq<nat>)
    requires q != []
    requires |q| > 1 ==> Entry(words, r, Parent(q)) == Lookup(nodes, r, Parent(q))
    requires |q| > 1 && Node(r, Parent(q)) in nodes ==> nodes[Node(r, Parent(q))] != 0
    requires ParentThere(nodes, r, q) ==> Slot(words, OwnerTable(nodes, r, q), Last(q)) == Lookup(nodes, r, q)
    requires !ParentThere(nodes, r, q) ==> Node(r, q) !in nodes
    ensures Entry(words, r, q) == Lookup(nodes, r, q)
  {}

  // -- the three ways tables change -------------------------------------------

  ghost predicate FreshFrame(nodes: Nodes, roots: set<nat>, frame: nat) {
    frame !in roots && forall n | n in nodes :: FrameOf(nodes[n]) != frame
  }

  function ZeroTable(): seq<nat> {
    seq(512, _ => 0)
  }

  /** Clearing the frame if it becomes a table, then storing the entry in its slot. */
  function StoreEntry(words: Words, table: nat, i: nat, e: nat, clear: bool): Words
    requires table in words && i < |words[table]| && table != FrameOf(e)
  {
    var cleared := if clear then words[FrameOf(e) := ZeroTable()] else words;
    var entries: seq<nat> := words[table][i := e];
    cleared[table := entries]
  }

  ghost function Inserted(words: Words, nodes: Nodes, root: nat, q: seq<nat>, e: nat): Words
    requires q != [] && IsTable(words, OwnerTable(nodes, root, q)) && Last(q) < 512
    requires OwnerTable(nodes, root, q) != FrameOf(e)
  {
    StoreEntry(words, OwnerTable(nodes, root, q), Last(q), e, |q| < 4)
  }

  lemma InsertedIsStore(words: Words, nodes: Nodes, root: nat, q: seq<nat>, e: nat, table: nat, i: nat, clear: bool)
    requires q != [] && IsTable(words, OwnerTable(nodes, root, q)) && Last(q) < 512
    requires OwnerTable(nodes, root, q) != FrameOf(e)
    requires table == OwnerTable(nodes, root, q) && i == Last(q) && (clear <==> |q| < 4)
    ensures StoreEntry(words, table, i, e, clear) == Inserted(words, nodes, root, q, e)
  {}

  ghost predicate CanInsert(words: Words, nodes: Nodes, roots: set<nat>, root: nat, q: seq<nat>, e: nat) {
    && TreeInv(words, nodes, roots) && root in roots && UserPath(q)
    && Node(root, q) !in nodes && ParentThere(nodes, root, q)
    && GoodEntry(e) && FreshFrame(nodes, roots, FrameOf(e))
  }

  lemma CanInsertTable(words: Words, nodes: Nodes, roots: set<nat>, root: nat, q: seq<nat>, e: nat)
    requires CanInsert(words, nodes, roots, root, q, e)
    ensures IsTable(words, OwnerTable(nodes, root, q)) && Last(q) < 512
    ensures OwnerTable(nodes, root, q) != FrameOf(e)
  {
    EntryIsSlot(words, nodes, roots, root, q);
  }

  /** Storing one entry for a fresh frame adds that node and touches no other. */
  lemma InsertKeepsTree(words: Words, nodes: Nodes, roots: set<nat>, root: nat, q: seq<nat>, e: nat)
    requires CanInsert(words, nodes, roots, root, q, e)
    ensures IsTable(words, OwnerTable(nodes, root, q)) && Last(q) < 512 && OwnerTable(nodes, root, q) != FrameOf(e)
    ensures TreeInv(Inserted(words, nodes, root, q, e), nodes[Node(root, q) := e], roots)
  {
    CanInsertTable(words, nodes, roots, root, q, e);
    InsertKeepsNodes(words, nodes, roots, root, q, e);
    forall r', q' | r' in roots && UserPath(q')
      ensures Entry(Inserted(words, nodes, root, q, e), r', q') == Lookup(nodes[Node(root, q) := e], r', q')
    {
      EntryAfterInsert(words, nodes, roots, root, q, e, r', q');
    }
  }

  lemma InsertKeepsNodes(words: Words, nodes: Nodes, roots: set<nat>, root: nat, q: seq<nat>, e: nat)
    requires CanInsert(words, nodes, roots, root, q, e)
    ensures IsTable(words, OwnerTable(nodes, root, q)) && Last(q) < 512 && OwnerTable(nodes, root, q) != FrameOf(e)
    ensures var words', nodes' := Inserted(words, nodes, root, q, e), nodes[Node(root, q) := e];
      && (forall r | r in roots :: IsTable(words', r))
      && (forall n | n in nodes' :: GoodNode(words', nodes', roots, n))
      && OneOwner(nodes')
  {
    CanInsertTable(words, nodes, roots, root, q, e);
    var words', nodes' := Inserted(words, nodes, root, q, e), nodes[Node(root, q) := e];
    OneOwnerInsert(nodes, Node(root, q), e);
    forall n | n in nodes' ensures GoodNode(words', nodes', roots, n) {
      if n != Node(root, q) {
        assert GoodNode(words, nodes, roots, n);
      }
    }
  }

  lemma {:induction false} EntryAfterInsert(words: Words, nodes: Nodes, roots: set<nat>, root: nat, q: seq<nat>, e: nat,
                                           r': nat, q': seq<nat>)
    requires CanInsert(words, nodes, roots, root, q, e) && r' in roots && UserPath(q')
    ensures IsTable(words, OwnerTable(nodes, root, q)) && Last(q) < 512 && OwnerTable(nodes, root, q) != FrameOf(e)
    ensures Entry(Inserted(words, nodes, root, q, e), r', q') == Lookup(nodes[Node(root, q) := e], r', q')
    decreases |q'|
  {
    if |q'| > 1 {
      ParentIsUser(q');
      EntryAfterInsert(words, nodes, roots, root, q, e, r', Parent(q'));
    }
    SlotAfterInsert(words, nodes, roots, root, q, e, r', q');
    if |q'| > 1 && Node(r', Parent(q')) in nodes {
      EntryNonZero(words, nodes, roots, Node(r', Parent(q')));
    }
    EntryStep(Inserted(words, nodes, root, q, e), nodes[Node(root, q) := e], r', q');
  }

  /** Below a missing entry nothing is present, and a table just added is empty. */
  lemma SlotAfterInsert(words: Words, nodes: Nodes, roots: set<nat>, root: nat, q: seq<nat>, e: nat,
                        r': nat, q': seq<nat>)
    requires CanInsert(words, nodes, roots, root, q, e) && r' in roots && UserPath(q')
    ensures IsTable(words, OwnerTable(nodes, root, q)) && Last(q) < 512 && OwnerTable(nodes, root, q) != FrameOf(e)
    ensures var words', nodes' := Inserted(words, nodes, root, q, e), nodes[Node(root, q) := e];
      && (ParentThere(nodes', r', q') ==> Slot(words', OwnerTable(nodes', r', q'), Last(q')) == Lookup(nodes', r', q'))
      && (!ParentThere(nodes', r', q') ==> Node(r', q') !in nodes')
  {
    CanInsertTable(words, nodes, roots, root, q, e);
    if Node(r', q') in nodes {
      ChildHasParent(words, nodes, roots, r', q');
    }
    if ParentThere(nodes, r', q') {
      EntryIsSlot(words, nodes, roots, r', q');
      SlotIdentifies(words, nodes, roots, root, q, r', q');
      OwnerNotFresh(nodes, roots, r', q', FrameOf(e));
      assert OwnerTable(nodes[Node(root, q) := e], r', q') == OwnerTable(nodes, r', q');
    } else {
      assert Node(r', q') !in nodes;
      NewTableEmpty(words, nodes, roots, root, q, e, Last(q'));
    }
  }

  lemma NewTableEmpty(words: Words, nodes: Nodes, roots: set<nat>, root: nat, q: seq<nat>, e: nat, i: nat)
    requires CanInsert(words, nodes, roots, root, q, e)
    ensures IsTable(words, OwnerTable(nodes, root, q)) && Last(q) < 512 && OwnerTable(nodes, root, q) != FrameOf(e)
    ensures |q| < 4 ==> Slot(Inserted(words, nodes, root, q, e), FrameOf(e), i) == 0
  {
    CanInsertTable(words, nodes, roots, root, q, e);
  }

  lemma OwnerNotFresh(nodes: Nodes, roots: set<nat>, r: nat, q: seq<nat>, frame: nat)
    requires r in roots && q != [] && ParentThere(nodes, r, q) && FreshFrame(nodes, roots, frame)
    ensures OwnerTable(nodes, r, q) != frame
  {}

  lemma EntryNonZero(words: Words, nodes: Nodes, roots: set<nat>, n: Node)
    requires TreeInv(words, nodes, roots) && n in nodes
    ensures nodes[n] != 0
  {
    assert GoodNode(words, nodes, roots, n);
  }

  function ClearEntry(words: Words, table: nat, i: nat): Words
    requires table in words && i < |words[table]|
  {
    var entries: seq<nat> := words[table][i := 0];
    words[table := entries]
  }

  /** Clearing the slot of a page. */
  ghost function Removed(words: Words, nodes: Nodes, root: nat, q: seq<nat>): Words
    requires q != [] && IsTable(words, OwnerTable(nodes, root, q)) && Last(q) < 512
  {
    ClearEntry(words, OwnerTable(nodes, root, q), Last(q))
  }

  lemma RemoveKeepsTree(words: Words, nodes: Nodes, roots: set<nat>, root: nat, q: seq<nat>)
    requires TreeInv(words, nodes, roots) && Node(root, q) in nodes && |q| == 4
    ensures IsTable(words, OwnerTable(nodes, root, q)) && Last(q) < 512
    ensures TreeInv(Removed(words, nodes, root, q), nodes - {Node(root, q)}, roots)
  {
    PageParent(words, nodes, roots, root, q);
    var words' := Removed(words, nodes, root, q);
    var nodes' := nodes - {Node(root, q)};
    OneOwnerRemove(nodes, {Node(root, q)});
    forall n | n in nodes' ensures GoodNode(words', nodes', roots, n) {
      assert GoodNode(words, nodes, roots, n);
    }
    forall r', q' | r' in roots && UserPath(q')
      ensures Entry(words', r', q') == Lookup(nodes', r', q')
    {
      EntryAfterRemove(words, nodes, roots, root, q, r', q');
    }
  }

  lemma {:induction false} EntryAfterRemove(words: Words, nodes: Nodes, roots: set<nat>, root: nat, q: seq<nat>,
                                           r': nat, q': seq<nat>)
    requires TreeInv(words, nodes, roots) && Node(root, q) in nodes && |q| == 4 && r' in roots && UserPath(q')
    ensures IsTable(words, OwnerTable(nodes, root, q)) && Last(q) < 512
    ensures Entry(Removed(words, nodes, root, q), r', q') == Lookup(nodes - {Node(root, q)}, r', q')
    decreases |q'|
  {
    if |q'| > 1 {
      ParentIsUser(q');
      EntryAfterRemove(words, nodes, roots, root, q, r', Parent(q'));
    }
    SlotAfterRemove(words, nodes, roots, root, q, r', q');
    if |q'| > 1 && Node(r', Parent(q')) in nodes {
      EntryNonZero(words, nodes, roots, Node(r', Parent(q')));
    }
    EntryStep(Removed(words, nodes, root, q), nodes - {Node(root, q)}, r', q');
  }

  lemma SlotAfterRemove(words: Words, nodes: Nodes, roots: set<nat>, root: nat, q: seq<nat>, r': nat, q': seq<nat>)
    requires TreeInv(words, nodes, roots) && Node(root, q) in nodes && |q| == 4 && r' in roots && UserPath(q')
    ensures IsTable(words, OwnerTable(nodes, root, q)) && Last(q) < 512
    ensures var words', nodes' := Removed(words, nodes, root, q), nodes - {Node(root, q)};
      && (ParentThere(nodes', r', q') ==> Slot(words', OwnerTable(nodes', r', q'), Last(q')) == Lookup(nodes', r', q'))
      && (!ParentThere(nodes', r', q') ==> Node(r', q') !in nodes')
  {
    PageParent(words, nodes, roots, root, q);
    if Node(r', q') in nodes {
      ChildHasParent(words, nodes, roots, r', q');
    }
    if ParentThere(nodes, r', q') {
      EntryIsSlot(words, nodes, roots, r', q');
      SlotIdentifies(words, nodes, roots, root, q, r', q');
    }
  }

  lemma PageParent(words: Words, nodes: Nodes, roots: set<nat>, root: nat, q: seq<nat>)
    requires TreeInv(words, nodes, roots) && Node(root, q) in nodes && |q| == 4
    ensures root in roots && UserPath(q) && ParentThere(nodes, root, q)
    ensures IsTable(words, OwnerTable(nodes, root, q)) && Last(q) < 512
  {
    assert GoodNode(words, nodes, roots, Node(root, q));
    ChildHasParent(words, nodes, roots, root, q);
    EntryIsSlot(words, nodes, roots, root, q);
  }

  /** A new root table whose user half is empty adds an empty address space. */
  lemma AddRootKeepsTree(words: Words, nodes: Nodes, roots: set<nat>, root: nat, table: seq<nat>)
    requires TreeInv(words, nodes, roots) && FreshFrame(nodes, roots, root)
    requires |table| == 512 && forall i | 0 <= i < 256 :: !Present(table[i])
    ensures TreeInv(words[root := table], nodes, roots + {root})
    ensures forall n | n in nodes :: n.root != root
  {
    var words' := words[root := table];
    forall n | n in nodes ensures GoodNode(words', nodes, roots + {root}, n) && n.root != root {
      assert GoodNode(words, nodes, roots, n);
    }
    forall r', q' | r' in roots + {root} && UserPath(q')
      ensures Entry(words', r', q') == Lookup(nodes, r', q')
    {
      if r' == root {
        EmptyRoot(words', root, q');
      } else {
        OtherRoots(words, nodes, roots, root, table, r', q');
      }
    }
  }

  lemma {:induction false} EmptyRoot(words: Words, root: nat, q: seq<nat>)
    requires IsTable(words, root) && (forall i | 0 <= i < 256 :: !Present(words[root][i])) && UserPath(q)
    ensures Entry(words, root, q) == 0
    decreases |q|
  {
    if |q| > 1 {
      ParentIsUser(q);
      EmptyRoot(words, root, Parent(q));
    }
  }

  lemma {:induction false} OtherRoots(words: Words, nodes: Nodes, roots: set<nat>, root: nat, table: seq<nat>,
                                     r': nat, q': seq<nat>)
    requires TreeInv(words, nodes, roots) && FreshFrame(nodes, roots, root) && r' in roots && UserPath(q')
    ensures Entry(words[root := table], r', q') == Lookup(nodes, r', q')
    decreases |q'|
  {
    if |q'| > 1 {
      ParentIsUser(q');
      OtherRoots(words, nodes, roots, root, table, r', Parent(q'));
    }
    if ParentThere(nodes, r', q') {
      EntryIsSlot(words, nodes, roots, r', q');
    } else if Node(r', q') in nodes {
      ChildHasParent(words, nodes, roots, r', q');
      assert false;
    }
  }
}
