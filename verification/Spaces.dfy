/**
  Address spaces as a whole: what mapping, unmapping and copying pages mean for the
  set of all nodes, for the frames in use and for the contents of pages.

  `Memory` proves its methods against the relations `Grows`, `Shrinks` and `Copied`;
  everything here follows from those relations alone.
 */
module Spaces {

  import opened Bytes
  import opened PageTables

  /**
    `nodes`: the present entries of all user halves.  `upper`: the roots, each with
    the 256 entries of its kernel half.
    `used`: frames the allocator has handed out, of those in `managed`.  `reserved`:
    those of them that are no node, such as the root tables.
   */
  datatype Spaces = Spaces(
    nodes: Nodes,
    upper: map<nat, seq<nat>>,
    managed: set<nat>,
    used: set<nat>,
    reserved: set<nat>)

  ghost predicate PlainEntries(a: Spaces) {
    forall n | n in a.nodes ::
      && n.root in a.upper && UserPath(n.path) && GoodEntry(a.nodes[n]) && FrameOf(a.nodes[n]) !in a.upper
      && FrameOf(a.nodes[n]) in a.used && FrameOf(a.nodes[n]) !in a.reserved
  }

  /** Some node lives on frame `f`. */
  ghost predicate Owned(nodes: Nodes, f: nat) {
    exists n | n in nodes :: FrameOf(nodes[n]) == f
  }

  /** Every frame in use is reserved or is exactly one node of one address space. */
  ghost predicate SpacesInv(a: Spaces) {
    && PlainEntries(a)
    && OneOwner(a.nodes)
    && a.used <= a.managed && a.reserved <= a.used
    && (forall f {:trigger Owned(a.nodes, f)} | f in a.used && f !in a.reserved :: Owned(a.nodes, f))
    && (forall r | r in a.upper && r in a.managed :: r in a.reserved)
  }

  // -- what single operations mean --------------------------------------------

  ghost function PrefixNodes(root: nat, q: seq<nat>): set<Node>
    requires |q| == 4
  {
    {Node(root, q[..1]), Node(root, q[..2]), Node(root, q[..3]), Node(root, q)}
  }

  lemma PrefixSum(root: nat, q: seq<nat>)
    requires |q| == 4
    ensures {} + {Node(root, q[..1])} <= PrefixNodes(root, q)
    ensures {} + {Node(root, q[..1])} + {Node(root, q[..2])} <= PrefixNodes(root, q)
    ensures {} + {Node(root, q[..1])} + {Node(root, q[..2])} + {Node(root, q[..3])} <= PrefixNodes(root, q)
    ensures {} + {Node(root, q[..1])} + {Node(root, q[..2])} + {Node(root, q[..3])} + {Node(root, q)} == PrefixNodes(root, q)
  {}

  /** The nodes `more` are there too now; those already there kept their entries. */
  ghost predicate Grows(a: Spaces, b: Spaces, more: set<Node>, flags: nat) {
    && SpacesInv(b)
    && b == a.(nodes := b.nodes, used := b.used)
    && b.nodes.Keys == a.nodes.Keys + more
    && (forall n | n in a.nodes :: b.nodes[n] == a.nodes[n])
    && (forall n | n in b.nodes && n !in a.nodes ::
          b.nodes[n] % 0x1000 == flags && FrameOf(b.nodes[n]) !in a.used)
  }

  ghost predicate Shrinks(a: Spaces, b: Spaces, less: set<Node>) {
    && SpacesInv(b)
    && b == a.(nodes := a.nodes - less, used := b.used)
  }

  lemma GrowsNothing(a: Spaces, flags: nat)
    requires SpacesInv(a)
    ensures Grows(a, a, {}, flags)
  {}

  lemma AlreadyThere(a: Spaces, n: Node, flags: nat)
    requires SpacesInv(a) && n in a.nodes
    ensures Grows(a, a, {n}, flags)
  {}

  lemma GrowsTwice(a: Spaces, b: Spaces, c: Spaces, m1: set<Node>, m2: set<Node>, flags: nat)
    requires SpacesInv(a) && Grows(a, b, m1, flags) && Grows(b, c, m2, flags)
    ensures Grows(a, c, m1 + m2, flags)
  {
    forall n | n in c.nodes && n !in a.nodes
      ensures c.nodes[n] % 0x1000 == flags && FrameOf(c.nodes[n]) !in a.used
    {
      if n in b.nodes {
        assert c.nodes[n] == b.nodes[n];
      } else {
        assert FrameOf(c.nodes[n]) !in b.used;
        UsedGrows(a, b, m1, flags);
      }
    }
  }

  lemma OwnedGrows(a: Spaces, b: Spaces, more: set<Node>, flags: nat, f: nat)
    requires Grows(a, b, more, flags) && Owned(a.nodes, f)
    ensures Owned(b.nodes, f)
  {
    var n :| n in a.nodes && FrameOf(a.nodes[n]) == f;
    assert n in b.nodes && FrameOf(b.nodes[n]) == f;
  }

  lemma NotOwnedBefore(a: Spaces, b: Spaces, more: set<Node>, flags: nat, f: nat)
    requires Grows(a, b, more, flags) && !Owned(b.nodes, f)
    ensures !Owned(a.nodes, f)
  {
    forall n | n in a.nodes ensures FrameOf(a.nodes[n]) != f {
      assert n in b.nodes && b.nodes[n] == a.nodes[n];
    }
  }

  lemma UsedGrows(a: Spaces, b: Spaces, more: set<Node>, flags: nat)
    requires SpacesInv(a) && Grows(a, b, more, flags)
    ensures a.used <= b.used
  {
    forall f | f in a.used ensures f in b.used {
      if f !in a.reserved {
        assert Owned(a.nodes, f);
        OwnedGrows(a, b, more, flags, f);
        var n :| n in b.nodes && FrameOf(b.nodes[n]) == f;
        assert FrameOf(b.nodes[n]) in b.used;
      }
    }
  }

  lemma ShrinksNothing(a: Spaces)
    requires SpacesInv(a)
    ensures Shrinks(a, a, {})
  {
    assert a.nodes - {} == a.nodes;
  }

  lemma NothingToDrop(a: Spaces, n: Node)
    requires SpacesInv(a) && n !in a.nodes
    ensures Shrinks(a, a, {n})
  {
    assert a.nodes - {n} == a.nodes;
  }

  lemma ShrinksTwice(a: Spaces, b: Spaces, c: Spaces, l1: set<Node>, l2: set<Node>)
    requires SpacesInv(a) && Shrinks(a, b, l1) && Shrinks(b, c, l2)
    ensures Shrinks(a, c, l1 + l2)
  {
    assert a.nodes - l1 - l2 == a.nodes - (l1 + l2);
  }

  /** Adding one node on a frame that was free. */
  lemma AddNode(a: Spaces, n: Node, frame: nat, flags: nat)
    requires SpacesInv(a) && n !in a.nodes && n.root in a.upper && UserPath(n.path)
    requires frame in a.managed && frame !in a.used && frame % 0x1000 == 0 && frame < 0x10_0000_0000_0000
    requires GoodFlags(flags)
    ensures frame !in a.upper && FreshFrame(a.nodes, a.upper.Keys, frame)
    ensures FrameOf(MakeEntry(frame, flags)) == frame && GoodEntry(MakeEntry(frame, flags))
    ensures Grows(a, a.(nodes := a.nodes[n := MakeEntry(frame, flags)], used := a.used + {frame}), {n}, flags)
  {
    WriterAndReaderAgree(frame, flags);
    var e := MakeEntry(frame, flags);
    var b := a.(nodes := a.nodes[n := e], used := a.used + {frame});
    OneOwnerInsert(a.nodes, n, e);
    forall f | f in b.used && f !in b.reserved ensures Owned(b.nodes, f) {
      if f == frame {
        assert n in b.nodes && FrameOf(b.nodes[n]) == f;
      } else {
        assert Owned(a.nodes, f);
        var m :| m in a.nodes && FrameOf(a.nodes[m]) == f;
        assert m in b.nodes && FrameOf(b.nodes[m]) == f;
      }
    }
  }

  /** Taking a node away gives its frame back. */
  lemma DropNode(a: Spaces, n: Node)
    requires SpacesInv(a) && n in a.nodes
    ensures FrameOf(a.nodes[n]) in a.used && FrameOf(a.nodes[n]) in a.managed
    ensures Shrinks(a, a.(nodes := a.nodes - {n}, used := a.used - {FrameOf(a.nodes[n])}), {n})
  {
    var frame := FrameOf(a.nodes[n]);
    var b := a.(nodes := a.nodes - {n}, used := a.used - {frame});
    OneOwnerRemove(a.nodes, {n});
    forall m | m in b.nodes ensures FrameOf(b.nodes[m]) in b.used {
      if FrameOf(a.nodes[m]) == frame {
        OwnerOf(a.nodes, m, n);
      }
    }
    forall f | f in b.used && f !in b.reserved ensures Owned(b.nodes, f) {
      assert Owned(a.nodes, f);
      var m :| m in a.nodes && FrameOf(a.nodes[m]) == f;
      assert m in b.nodes && FrameOf(b.nodes[m]) == f;
    }
  }

  // -- a new space ------------------------------------------------------------

  /** A new space with the kernel half of `cr3` and an empty user half, on the free frame `r`. */
  ghost function WithRoot(a: Spaces, cr3: nat, r: nat): Spaces
    requires cr3 in a.upper
  {
    a.(upper := a.upper[r := a.upper[cr3]], used := a.used + {r}, reserved := a.reserved + {r})
  }

  ghost predicate CanRoot(a: Spaces, cr3: nat, r: nat) {
    SpacesInv(a) && cr3 in a.upper && r in a.managed && r !in a.used
  }

  lemma RootKeeps(a: Spaces, cr3: nat, r: nat)
    requires CanRoot(a, cr3, r)
    ensures SpacesInv(WithRoot(a, cr3, r)) && r !in a.upper
    ensures forall n | n in a.nodes :: n.root != r
  {}

  // -- counting frames --------------------------------------------------------

  ghost function Frames(nodes: Nodes): set<nat> {
    set n | n in nodes :: FrameOf(nodes[n])
  }

  lemma {:induction false} FramesCount(nodes: Nodes)
    requires OneOwner(nodes)
    ensures |Frames(nodes)| == |nodes|
  {
    if nodes != map[] {
      var n :| n in nodes;
      var rest := nodes - {n};
      OneOwnerRemove(nodes, {n});
      FramesCount(rest);
      assert rest.Keys == nodes.Keys - {n};
      assert FrameOf(nodes[n]) !in Frames(rest) by {
        forall m | m in rest ensures FrameOf(rest[m]) != FrameOf(nodes[n]) {
          if FrameOf(nodes[m]) == FrameOf(nodes[n]) {
            OwnerOf(nodes, m, n);
          }
        }
      }
      forall f ensures f in Frames(nodes) <==> f in Frames(rest) + {FrameOf(nodes[n])} {
        if f in Frames(nodes) {
          var m :| m in nodes && FrameOf(nodes[m]) == f;
          if m != n {
            assert m in rest && FrameOf(rest[m]) == f;
          }
        }
        if f in Frames(rest) {
          var m :| m in rest && FrameOf(rest[m]) == f;
          assert m in nodes && FrameOf(nodes[m]) == f;
        }
      }
      assert Frames(nodes) == Frames(rest) + {FrameOf(nodes[n])};
    }
  }

  /** The frames in use are the reserved ones and one for each node. */
  lemma UsedCount(a: Spaces)
    requires SpacesInv(a)
    ensures |a.used| == |a.reserved| + |a.nodes|
  {
    FramesCount(a.nodes);
    forall f ensures f in a.used <==> f in a.reserved + Frames(a.nodes) {
      if f in a.used && f !in a.reserved {
        assert Owned(a.nodes, f);
        var n :| n in a.nodes && FrameOf(a.nodes[n]) == f;
        assert f in Frames(a.nodes);
      }
    }
    assert a.used == a.reserved + Frames(a.nodes);
    DisjointSum(a.reserved, Frames(a.nodes));
  }

  lemma DisjointSum<T>(x: set<T>, y: set<T>)
    requires x !! y
    ensures |x + y| == |x| + |y|
  {}

  /** Growing costs one frame for each node that was missing, and no more. */
  lemma GrowthCost(a: Spaces, b: Spaces, more: set<Node>, flags: nat)
    requires SpacesInv(a) && Grows(a, b, more, flags)
    ensures |b.used| == |a.used| + |more - a.nodes.Keys|
  {
    UsedCount(a);
    UsedCount(b);
    KeysGrow(a.nodes, b.nodes, more);
  }

  lemma KeysGrow(x: Nodes, y: Nodes, more: set<Node>)
    requires y.Keys == x.Keys + more
    ensures |y| == |x| + |more - x.Keys|
  {
    assert y.Keys == x.Keys + (more - x.Keys);
    DisjointSum(x.Keys, more - x.Keys);
    assert |y| == |y.Keys| && |x| == |x.Keys|;
  }

  /** Shrinking gives back one frame for each node that was there. */
  lemma ShrinkYield(a: Spaces, b: Spaces, less: set<Node>)
    requires SpacesInv(a) && Shrinks(a, b, less)
    ensures |b.used| + |a.nodes.Keys * less| == |a.used|
  {
    UsedCount(a);
    UsedCount(b);
    assert a.nodes.Keys == b.nodes.Keys + a.nodes.Keys * less;
    assert |b.nodes| == |b.nodes.Keys| && |a.nodes| == |a.nodes.Keys|;
  }

  // -- regions ----------------------------------------------------------------

  function RoundDown(va: nat): nat {
    va / 0x1000 * 0x1000
  }

  /** How many turns a loop over pages makes from `va` to below `end`. */
  function Turns(va: nat, end: nat): nat {
    if va >= end then 0 else (end - va + 0xfff) / 0x1000
  }

  lemma TurnsAre(va: nat, end: nat, k: nat)
    requires va + k * 0x1000 >= end && (k > 0 ==> va + k * 0x1000 < end + 0x1000)
    ensures k == Turns(va, end)
  {}

  /** The page nodes of `count` pages, the first being the one that holds `va`. */
  ghost function RegionPages(root: nat, va: nat, count: nat): set<Node> {
    if count == 0 then {} else RegionPages(root, va, count - 1) + {Node(root, PathOf(va + (count - 1) * 0x1000))}
  }

  /** Those pages together with the tables on the way to them. */
  ghost function RegionNodes(root: nat, va: nat, count: nat): set<Node> {
    if count == 0 then {} else RegionNodes(root, va, count - 1) + PrefixNodes(root, PathOf(va + (count - 1) * 0x1000))
  }

  lemma {:induction false} PagesAreNodes(root: nat, va: nat, count: nat)
    ensures RegionPages(root, va, count) <= RegionNodes(root, va, count)
    ensures forall n | n in RegionNodes(root, va, count) ::
      n.root == root && 1 <= |n.path| <= 4 && (|n.path| == 4 <==> n in RegionPages(root, va, count))
  {
    if count > 0 {
      PagesAreNodes(root, va, count - 1);
    }
  }

  /** A user address's page belongs to a region exactly when its page number does. */
  lemma {:induction false} InRegion(root: nat, va: nat, count: nat, x: nat)
    requires va + count * 0x1000 <= 0x8000_0000_0000 && x < 0x8000_0000_0000
    ensures Node(root, PathOf(x)) in RegionPages(root, va, count) <==> va / 0x1000 <= x / 0x1000 < va / 0x1000 + count
  {
    if count > 0 {
      InRegion(root, va, count - 1, x);
      PathOfInjective(va + (count - 1) * 0x1000, x);
    }
  }

  /**
    The pages a loop over a range reaches that starts at the page of `start`: all that
    hold an address of the range, and, should the end lie in front, those between the
    two if they share a page.
   */
  lemma RegionReaches(root: nat, start: nat, end: nat, x: nat)
    requires end <= 0x8000_0000_0000 && x < 0x8000_0000_0000
    ensures Node(root, PathOf(x)) in RegionPages(root, RoundDown(start), Turns(RoundDown(start), end))
      <==> start / 0x1000 <= x / 0x1000 < (end + 0xfff) / 0x1000
  {
    var first, count := RoundDown(start), Turns(RoundDown(start), end);
    assert first / 0x1000 == start / 0x1000;
    if first < end {
      assert first / 0x1000 + count == (end + 0xfff) / 0x1000;
      InRegion(root, first, count, x);
    } else {
      assert (end + 0xfff) / 0x1000 <= start / 0x1000;
    }
  }

  /** The pages a loop over `len` bytes reaches that starts where it is told. */
  lemma CopyReachesPages(start: nat, len: nat, x: nat)
    ensures InPages(start, Turns(start, start + len), x)
      <==> start / 0x1000 <= x / 0x1000 < start / 0x1000 + (len + 0xfff) / 0x1000
  {}

  /** How many pages share their first `k` indices. */
  function Block(k: nat): (n: nat)
    ensures n > 0
  {
    if k >= 4 then 1 else if k == 3 then 0x200 else if k == 2 then 0x4_0000 else 0x800_0000
  }

  /** The nodes at depth `k` on the way to a region: its pages at depth 4, tables above. */
  ghost function RegionLevel(root: nat, va: nat, count: nat, k: nat): set<Node>
    requires 1 <= k <= 4
  {
    if count == 0 then {}
    else RegionLevel(root, va, count - 1, k) + {Node(root, PathOf(va + (count - 1) * 0x1000)[..k])}
  }

  /** The nodes of a region are those of its four levels. */
  lemma {:induction false} LevelsAreNodes(root: nat, va: nat, count: nat)
    ensures RegionNodes(root, va, count) ==
      RegionLevel(root, va, count, 1) + RegionLevel(root, va, count, 2)
      + RegionLevel(root, va, count, 3) + RegionLevel(root, va, count, 4)
    ensures RegionLevel(root, va, count, 4) == RegionPages(root, va, count)
  {
    if count > 0 {
      LevelsAreNodes(root, va, count - 1);
      assert PathOf(va + (count - 1) * 0x1000)[..4] == PathOf(va + (count - 1) * 0x1000);
    }
  }

  lemma SameBlock(a: nat, b: nat, k: nat)
    requires 1 <= k <= 4 && a / 0x1000 / Block(k) == b / 0x1000 / Block(k)
    ensures PathOf(a)[..k] == PathOf(b)[..k]
  {
    var p, q := a / 0x1000, b / 0x1000;
    assert p / 0x4_0000 == p / 512 / 512 && p / 0x800_0000 == p / 512 / 512 / 512;
    assert q / 0x4_0000 == q / 512 / 512 && q / 0x800_0000 == q / 512 / 512 / 512;
  }

  /** One page more costs one node more at a level at most, and none inside the same block. */
  lemma LevelStep(root: nat, va: nat, count: nat, k: nat)
    requires 1 <= count && 1 <= k <= 4
    ensures |RegionLevel(root, va, count + 1, k)| <= |RegionLevel(root, va, count, k)| + 1
    ensures (va / 0x1000 + count) / Block(k) == (va / 0x1000 + count - 1) / Block(k) ==>
      RegionLevel(root, va, count + 1, k) == RegionLevel(root, va, count, k)
  {
    if (va / 0x1000 + count) / Block(k) == (va / 0x1000 + count - 1) / Block(k) {
      SameBlock(va + count * 0x1000, va + (count - 1) * 0x1000, k);
      assert Node(root, PathOf(va + (count - 1) * 0x1000)[..k]) in RegionLevel(root, va, count, k);
    }
  }

  /** From one page to the next the block stays or is the next one. */
  lemma NextBlock(p: nat, k: nat)
    ensures p / Block(k) <= (p + 1) / Block(k) <= p / Block(k) + 1
  {}

  lemma {:induction false} LevelByBlock(root: nat, va: nat, count: nat, k: nat)
    requires 1 <= count && 1 <= k <= 4
    ensures |RegionLevel(root, va, count, k)| <= (va / 0x1000 + count - 1) / Block(k) - va / 0x1000 / Block(k) + 1
  {
    if count == 1 {
      assert RegionLevel(root, va, 0, k) == {};
    } else {
      LevelByBlock(root, va, count - 1, k);
      LevelStep(root, va, count - 1, k);
      NextBlock(va / 0x1000 + count - 2, k);
    }
  }

  lemma BlocksOf(p: nat, m: nat, k: nat)
    ensures (p + m) / Block(k) - p / Block(k) <= m / Block(k) + 1
  {}

  /** Contiguous pages share tables: n pages need at most (n - 1) / 512 + 2 last-level ones, and so on upwards. */
  lemma LevelBound(root: nat, va: nat, count: nat, k: nat)
    requires 1 <= count && 1 <= k <= 4
    ensures |RegionLevel(root, va, count, k)| <= if k == 4 then count else (count - 1) / Block(k) + 2
  {
    LevelByBlock(root, va, count, k);
    BlocksOf(va / 0x1000, count - 1, k);
  }

  /**
    What allocating a region of n pages costs: a frame for each page not mapped yet,
    and at most (n - 1) / 512 + 2, (n - 1) / 512^2 + 2 and (n - 1) / 512^3 + 2 frames
    for tables.
   */
  lemma RegionCostBound(a: Spaces, b: Spaces, root: nat, va: nat, count: nat, flags: nat)
    requires SpacesInv(a) && Grows(a, b, RegionNodes(root, va, count), flags) && 1 <= count
    ensures |b.used| <= |a.used| + |RegionPages(root, va, count) - a.nodes.Keys|
      + (count - 1) / 0x200 + (count - 1) / 0x4_0000 + (count - 1) / 0x800_0000 + 6
    ensures |RegionPages(root, va, count) - a.nodes.Keys| <= count
  {
    GrowthCost(a, b, RegionNodes(root, va, count), flags);
    LevelsAreNodes(root, va, count);
    LevelBound(root, va, count, 1);
    LevelBound(root, va, count, 2);
    LevelBound(root, va, count, 3);
    LevelBound(root, va, count, 4);
    FourParts(RegionNodes(root, va, count), RegionLevel(root, va, count, 1), RegionLevel(root, va, count, 2),
              RegionLevel(root, va, count, 3), RegionLevel(root, va, count, 4), a.nodes.Keys);
  }

  lemma FourParts<T>(all: set<T>, one: set<T>, two: set<T>, three: set<T>, four: set<T>, there: set<T>)
    requires all == one + two + three + four
    ensures |all - there| <= |one| + |two| + |three| + |four - there| && |four - there| <= |four|
  {
    UnionSize(one, two);
    UnionSize(one + two, three);
    UnionSize(one + two + three, four - there);
    SubsetSize(all - there, one + two + three + (four - there));
    SubsetSize(four - there, four);
  }

  lemma UnionSize<T>(x: set<T>, y: set<T>)
    ensures |x + y| <= |x| + |y|
  {
    assert x + y == x + (y - x);
    SubsetSize(y - x, y);
  }

  lemma SubsetSize<T>(x: set<T>, y: set<T>)
    requires x <= y
    ensures |x| <= |y|
  {
    assert y == x + (y - x);
  }

  /**
    Allocating and freeing a region a second time leaves exactly the state the first
    time left: the tables stay, and no further frame is held on to.
   */
  lemma RegionPairRepeats(a: Spaces, b: Spaces, c: Spaces, d: Spaces, e: Spaces,
                          root: nat, va: nat, count: nat, f1: nat, f2: nat)
    requires SpacesInv(a)
    requires Grows(a, b, RegionNodes(root, va, count), f1) && Shrinks(b, c, RegionPages(root, va, count))
    requires Grows(c, d, RegionNodes(root, va, count), f2) && Shrinks(d, e, RegionPages(root, va, count))
    ensures e == c
  {
    PagesAreNodes(root, va, count);
    SameAfterPair(c.nodes, d.nodes, RegionNodes(root, va, count), RegionPages(root, va, count));
    SameUsed(c, e);
  }

  /** The nodes and the reserved frames determine the frames in use. */
  lemma SameUsed(a: Spaces, b: Spaces)
    requires SpacesInv(a) && SpacesInv(b) && a.nodes == b.nodes && a.reserved == b.reserved
    ensures a.used == b.used
  {
    UsedWithin(a, b);
    UsedWithin(b, a);
  }

  lemma UsedWithin(a: Spaces, b: Spaces)
    requires SpacesInv(a) && SpacesInv(b) && a.nodes == b.nodes && a.reserved == b.reserved
    ensures a.used <= b.used
  {
    forall f | f in a.used ensures f in b.used {
      if f !in a.reserved {
        assert Owned(a.nodes, f);
        var n :| n in a.nodes && FrameOf(a.nodes[n]) == f;
        assert FrameOf(b.nodes[n]) in b.used;
      }
    }
  }

  lemma SameAfterPair(x: Nodes, y: Nodes, more: set<Node>, less: set<Node>)
    requires y.Keys == x.Keys + more && (forall n | n in x :: y[n] == x[n])
    requires x.Keys !! less && more <= x.Keys + less
    ensures y - less == x
  {}

  // -- contents ---------------------------------------------------------------

  ghost predicate Mapped(a: Spaces, root: nat, va: nat) {
    Node(root, PathOf(va)) in a.nodes
  }

  ghost function FrameAt(a: Spaces, root: nat, va: nat): nat
    requires Mapped(a, root, va)
  {
    FrameOf(a.nodes[Node(root, PathOf(va))])
  }

  /** Contents of the frames that serve as pages. */
  type Contents = map<nat, seq<byte>>

  /** Every frame the allocator can hand out has contents. */
  ghost predicate Backed(a: Spaces, bytes: Contents) {
    forall f | f in a.managed :: f in bytes && |bytes[f]| == 0x1000
  }

  lemma StillBacked(a: Spaces, b: Spaces, bytes: Contents)
    requires Backed(a, bytes) && b.managed == a.managed
    ensures Backed(b, bytes)
  {}

  /** Contents of the page an address lies in. */
  ghost function PageAt(a: Spaces, bytes: Contents, root: nat, va: nat): seq<byte>
    requires SpacesInv(a) && Backed(a, bytes) && Mapped(a, root, va)
    ensures |PageAt(a, bytes, root, va)| == 0x1000
  {
    MappedFrameInUse(a, root, va);
    bytes[FrameAt(a, root, va)]
  }

  lemma MappedFrameInUse(a: Spaces, root: nat, va: nat)
    requires SpacesInv(a) && Mapped(a, root, va)
    ensures FrameAt(a, root, va) in a.used && FrameAt(a, root, va) in a.managed && Owned(a.nodes, FrameAt(a, root, va))
  {
    assert FrameOf(a.nodes[Node(root, PathOf(va))]) in a.used;
  }

  /** Pages of different spaces, or different pages of one space, never share a frame. */
  lemma TranslationInjective(a: Spaces, r1: nat, v1: nat, r2: nat, v2: nat)
    requires SpacesInv(a) && Mapped(a, r1, v1) && Mapped(a, r2, v2)
    requires v1 < 0x8000_0000_0000 && v2 < 0x8000_0000_0000
    ensures FrameAt(a, r1, v1) == FrameAt(a, r2, v2) <==> r1 == r2 && v1 / 0x1000 == v2 / 0x1000
  {
    PathOfInjective(v1, v2);
    if FrameAt(a, r1, v1) == FrameAt(a, r2, v2) {
      OwnerOf(a.nodes, Node(r1, PathOf(v1)), Node(r2, PathOf(v2)));
    }
  }

  // -- mapping and unmapping as changes of the translation ----------------------

  /**
    Mapping one page is an insertion: that page is mapped afterwards, every page
    mapped before keeps its frame, no other page of any space appears, and a page that
    does appear has a frame that was free and the flags asked for.
   */
  lemma MapIsInsert(a: Spaces, b: Spaces, cr3: nat, va: nat, flags: nat, root: nat, x: nat)
    requires Grows(a, b, PrefixNodes(cr3, PathOf(va)), flags) && va < 0x8000_0000_0000 && x < 0x8000_0000_0000
    ensures Mapped(b, root, x) <==> Mapped(a, root, x) || (root == cr3 && x / 0x1000 == va / 0x1000)
    ensures Mapped(a, root, x) ==> FrameAt(b, root, x) == FrameAt(a, root, x)
    ensures Mapped(b, root, x) && !Mapped(a, root, x) ==>
      FrameAt(b, root, x) !in a.used && b.nodes[Node(root, PathOf(x))] == FrameAt(b, root, x) + flags
  {
    PathOfInjective(va, x);
    Prefixes(PathOf(va));
    var n := Node(root, PathOf(x));
    if n in b.nodes && n !in a.nodes {
      assert b.nodes[n] == b.nodes[n] / 0x1000 * 0x1000 + b.nodes[n] % 0x1000;
    }
  }

  /** Allocating a region inserts the pages of the region and no others. */
  lemma RegionIsInserted(a: Spaces, b: Spaces, cr3: nat, va: nat, count: nat, flags: nat, root: nat, x: nat)
    requires Grows(a, b, RegionNodes(cr3, va, count), flags) && va + count * 0x1000 <= 0x8000_0000_0000
    requires x < 0x8000_0000_0000
    ensures Mapped(b, root, x) <==> Mapped(a, root, x) || (root == cr3 && InPages(va, count, x))
    ensures Mapped(a, root, x) ==> FrameAt(b, root, x) == FrameAt(a, root, x)
  {
    PagesAreNodes(cr3, va, count);
    InRegion(cr3, va, count, x);
  }

  /** Freeing a region removes the pages of the region and no others, and gives their frames back. */
  lemma RegionIsRemoved(a: Spaces, b: Spaces, cr3: nat, va: nat, count: nat, root: nat, x: nat)
    requires SpacesInv(a) && Shrinks(a, b, RegionPages(cr3, va, count)) && va + count * 0x1000 <= 0x8000_0000_0000
    requires x < 0x8000_0000_0000
    ensures Mapped(b, root, x) <==> Mapped(a, root, x) && !(root == cr3 && InPages(va, count, x))
    ensures Mapped(b, root, x) ==> FrameAt(b, root, x) == FrameAt(a, root, x)
    ensures Mapped(a, root, x) && !Mapped(b, root, x) ==> FrameAt(a, root, x) !in b.used
  {
    PagesAreNodes(cr3, va, count);
    InRegion(cr3, va, count, x);
    if Mapped(a, root, x) && !Mapped(b, root, x) {
      DroppedFrameFree(a, b, RegionPages(cr3, va, count), Node(root, PathOf(x)));
    }
  }

  /** The frame of a node that was dropped is no longer in use. */
  lemma DroppedFrameFree(a: Spaces, b: Spaces, less: set<Node>, n: Node)
    requires SpacesInv(a) && Shrinks(a, b, less) && n in a.nodes && n !in b.nodes
    ensures FrameOf(a.nodes[n]) !in b.used
  {
    var f := FrameOf(a.nodes[n]);
    if f in b.used {
      assert f !in b.reserved && Owned(b.nodes, f);
      var m :| m in b.nodes && FrameOf(b.nodes[m]) == f;
      OwnerOf(a.nodes, m, n);
    }
  }

  // -- copying between spaces -------------------------------------------------

  /** Address `x` lies in one of the `count` pages from the one that holds `start`. */
  ghost predicate InPages(start: nat, count: nat, x: nat) {
    start / 0x1000 <= x / 0x1000 < start / 0x1000 + count
  }

  /** Of `count` pages of `src`, those mapped in `src` and in `dst`. */
  ghost function SharedPages(a: Spaces, dst: nat, src: nat, start: nat, count: nat): set<Node> {
    set n | n in RegionPages(src, start, count) && n in a.nodes && Node(dst, n.path) in a.nodes :: n
  }

  /** Each page in range and mapped in both spaces was copied from `src` to `dst`; nothing else changed. */
  ghost predicate Copied(a: Spaces, before: Contents, after: Contents, dst: nat, src: nat, start: nat, count: nat)
    requires SpacesInv(a) && Backed(a, before)
  {
    && Backed(a, after) && after.Keys == before.Keys
    && (forall root: nat, va: nat | va < 0x8000_0000_0000 && Mapped(a, root, va) ::
          PageAt(a, after, root, va) ==
            if root == dst && Mapped(a, src, va) && InPages(start, count, va) then PageAt(a, before, src, va)
            else PageAt(a, before, root, va))
    && (forall f {:trigger Owned(a.nodes, f)} | f in before && !Owned(a.nodes, f) :: after[f] == before[f])
  }

  lemma CopiedNothing(a: Spaces, bytes: Contents, dst: nat, src: nat, start: nat)
    requires SpacesInv(a) && Backed(a, bytes)
    ensures Copied(a, bytes, bytes, dst, src, start, 0)
    ensures SharedPages(a, dst, src, start, 0) == {}
  {}

  /** One more page of the loop: turn `k` looks at address `va`. */
  lemma CopiedMore(a: Spaces, before: Contents, mid: Contents, after: Contents,
                   dst: nat, src: nat, start: nat, k: nat, va: nat)
    requires SpacesInv(a) && Backed(a, before) && Copied(a, before, mid, dst, src, start, k)
    requires va == start + k * 0x1000 < 0x8000_0000_0000
    requires after ==
      if Mapped(a, src, va) && Mapped(a, dst, va) then mid[FrameAt(a, dst, va) := PageAt(a, mid, src, va)] else mid
    ensures Copied(a, before, after, dst, src, start, k + 1)
  {
    if Mapped(a, src, va) && Mapped(a, dst, va) {
      MappedFrameInUse(a, dst, va);
    }
    forall root: nat, x: nat | x < 0x8000_0000_0000 && Mapped(a, root, x)
      ensures PageAt(a, after, root, x) ==
        if root == dst && Mapped(a, src, x) && InPages(start, k + 1, x) then PageAt(a, before, src, x)
        else PageAt(a, before, root, x)
    {
      assert InPages(start, k + 1, x) <==> InPages(start, k, x) || x / 0x1000 == va / 0x1000;
      if Mapped(a, dst, va) {
        TranslationInjective(a, root, x, dst, va);
      }
      PathOfInjective(x, va);
    }
  }

  /** The next page counts once, if it is mapped on both sides. */
  lemma SharedStep(a: Spaces, dst: nat, src: nat, start: nat, k: nat, va: nat)
    requires va == start + k * 0x1000 < 0x8000_0000_0000
    ensures |SharedPages(a, dst, src, start, k + 1)| ==
      |SharedPages(a, dst, src, start, k)| + (if Mapped(a, src, va) && Mapped(a, dst, va) then 1 else 0)
  {
    InRegion(src, start, k, va);
    var n := Node(src, PathOf(va));
    assert n !in SharedPages(a, dst, src, start, k);
    if Mapped(a, src, va) && Mapped(a, dst, va) {
      assert SharedPages(a, dst, src, start, k + 1) == SharedPages(a, dst, src, start, k) + {n};
    } else {
      assert SharedPages(a, dst, src, start, k + 1) == SharedPages(a, dst, src, start, k);
    }
  }

  // -- writing through a space ------------------------------------------------

  ghost function ByteAt(a: Spaces, bytes: Contents, root: nat, va: nat): byte
    requires SpacesInv(a) && Backed(a, bytes) && Mapped(a, root, va)
  {
    PageAt(a, bytes, root, va)[va % 0x1000]
  }

  /** `data` was stored from address `va` on in one space; every other byte of every space is as before. */
  ghost predicate Written(a: Spaces, before: Contents, after: Contents, root: nat, va: nat, data: seq<byte>)
    requires SpacesInv(a) && Backed(a, before)
  {
    && Backed(a, after) && after.Keys == before.Keys
    && (forall r: nat, x: nat | x < 0x8000_0000_0000 && Mapped(a, r, x) ::
          ByteAt(a, after, r, x) == if r == root && va <= x < va + |data| then data[x - va] else ByteAt(a, before, r, x))
    && (forall f {:trigger Owned(a.nodes, f)} | f in before && !Owned(a.nodes, f) :: after[f] == before[f])
  }

  function StoreInFrame(bytes: Contents, frame: nat, i: nat, value: byte): Contents
    requires frame in bytes && i < |bytes[frame]|
  {
    var page: seq<byte> := bytes[frame][i := value];
    bytes[frame := page]
  }

  /** Every address of a range lies in a mapped page. */
  ghost predicate AllMapped(a: Spaces, root: nat, start: nat, end: nat) {
    forall x: nat | start <= x < end :: Mapped(a, root, x)
  }

  lemma WrittenNothing(a: Spaces, bytes: Contents, root: nat, va: nat)
    requires SpacesInv(a) && Backed(a, bytes)
    ensures Written(a, bytes, bytes, root, va, [])
  {}

  /** What one byte stored through a space does to every byte of every space. */
  lemma ByteStored(a: Spaces, mid: Contents, root: nat, va: nat, value: byte, r: nat, x: nat)
    requires SpacesInv(a) && Backed(a, mid) && Mapped(a, root, va) && Mapped(a, r, x)
    requires va < 0x8000_0000_0000 && x < 0x8000_0000_0000
    requires FrameAt(a, root, va) in mid && |mid[FrameAt(a, root, va)]| == 0x1000
    ensures var after := StoreInFrame(mid, FrameAt(a, root, va), va % 0x1000, value);
      && Backed(a, after)
      && ByteAt(a, after, r, x) == if r == root && x == va then value else ByteAt(a, mid, r, x)
  {
    TranslationInjective(a, r, x, root, va);
  }

  /** One byte more of a longer store. */
  lemma WrittenMore(a: Spaces, before: Contents, mid: Contents, root: nat, va: nat, data: seq<byte>, i: nat)
    requires SpacesInv(a) && Backed(a, before) && i < |data| && va + i < 0x8000_0000_0000
    requires Mapped(a, root, va + i) && Written(a, before, mid, root, va, data[..i])
    ensures FrameAt(a, root, va + i) in mid && |mid[FrameAt(a, root, va + i)]| == 0x1000
    ensures Written(a, before, StoreInFrame(mid, FrameAt(a, root, va + i), (va + i) % 0x1000, data[i]),
                    root, va, data[..i + 1])
  {
    MappedFrameInUse(a, root, va + i);
    var after := StoreInFrame(mid, FrameAt(a, root, va + i), (va + i) % 0x1000, data[i]);
    forall r: nat, x: nat | x < 0x8000_0000_0000 && Mapped(a, r, x)
      ensures ByteAt(a, after, r, x) ==
        if r == root && va <= x < va + i + 1 then data[x - va] else ByteAt(a, before, r, x)
    {
      ByteStored(a, mid, root, va + i, data[i], r, x);
      assert ByteAt(a, mid, r, x) == if r == root && va <= x < va + i then data[x - va] else ByteAt(a, before, r, x);
    }
  }
}
