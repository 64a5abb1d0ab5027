/**
  The kernel heap: first fit with splitting, and free with merging on both sides,
  on a doubly linked list of headers kept inside the memory it manages.

  The first half describes the heap as a list of blocks, each a 32-byte header and a
  payload.  The second half is the code on the headers.
 */
module Heap {

  import opened Collections

  // -- blocks -----------------------------------------------------------------

  datatype Block = Block(size: nat, used: bool)

  /** Bytes the blocks take up, headers included. */
  function Span(blocks: seq<Block>): nat {
    if blocks == [] then 0 else 32 + blocks[0].size + Span(blocks[1..])
  }

  lemma {:induction false} SpanSplit(a: seq<Block>, b: seq<Block>)
    ensures Span(a + b) == Span(a) + Span(b)
  {
    if a == [] {
      assert a + b == b;
    } else {
      assert (a + b)[1..] == a[1..] + b;
      SpanSplit(a[1..], b);
    }
  }

  ghost predicate NoFreeNeighbours(blocks: seq<Block>) {
    forall i | 0 <= i < |blocks| - 1 :: blocks[i].used || blocks[i + 1].used
  }

  /** The blocks tile `total` bytes, none is smaller than 32, and free ones are never side by side. */
  ghost predicate Good(blocks: seq<Block>, total: nat) {
    && blocks != [] && Span(blocks) == total
    && (forall i | 0 <= i < |blocks| :: 32 <= blocks[i].size)
    && NoFreeNeighbours(blocks)
  }

  /** The payloads in use: where each starts, and its size. */
  ghost function Live(base: nat, blocks: seq<Block>): map<nat, nat>
    decreases |blocks|
  {
    if blocks == [] then map[] else
      var rest := Live(base + 32 + blocks[0].size, blocks[1..]);
      if blocks[0].used then rest[base + 32 := blocks[0].size] else rest
  }

  /** Payloads lie between the headers, inside the heap, each behind the end of the one before and a header. */
  lemma {:induction false} LiveApart(base: nat, blocks: seq<Block>)
    ensures forall p | p in Live(base, blocks) :: base + 32 <= p && p + Live(base, blocks)[p] <= base + Span(blocks)
    ensures forall p, q | p in Live(base, blocks) && q in Live(base, blocks) && p < q ::
      p + Live(base, blocks)[p] + 32 <= q
    decreases |blocks|
  {
    if blocks != [] {
      LiveApart(base + 32 + blocks[0].size, blocks[1..]);
    }
  }

  lemma {:induction false} LiveSplit(base: nat, a: seq<Block>, b: seq<Block>)
    ensures Live(base, a + b) == Live(base + Span(a), b) + Live(base, a)
    decreases |a|
  {
    if a == [] {
      assert a + b == b;
      assert Live(base, a) == map[];
    } else {
      assert (a + b)[1..] == a[1..] + b;
      LiveSplit(base + 32 + a[0].size, a[1..], b);
    }
  }

  // -- allocating -------------------------------------------------------------

  /** A free block of just the size, or with room for a header and 32 bytes more. */
  predicate Fits(b: Block, size: nat) {
    !b.used && (b.size == size || b.size >= size + 64)
  }

  function FirstFit(blocks: seq<Block>, size: nat): (i: nat)
    ensures i <= |blocks|
    ensures forall j | 0 <= j < i :: !Fits(blocks[j], size)
    ensures i < |blocks| ==> Fits(blocks[i], size)
  {
    if blocks == [] || Fits(blocks[0], size) then 0 else 1 + FirstFit(blocks[1..], size)
  }

  lemma FirstFitIs(blocks: seq<Block>, size: nat, i: nat)
    requires i <= |blocks| && (forall j | 0 <= j < i :: !Fits(blocks[j], size)) && (i < |blocks| ==> Fits(blocks[i], size))
    ensures FirstFit(blocks, size) == i
  {}

  /** What a block that fits becomes: used, with a free block behind it unless the size is just right. */
  function Taken(b: Block, size: nat): seq<Block>
    requires Fits(b, size)
  {
    if b.size == size then [Block(size, true)] else [Block(size, true), Block(b.size - size - 32, false)]
  }

  function Replace(blocks: seq<Block>, i: nat, n: nat, part: seq<Block>): seq<Block>
    requires i + n <= |blocks|
  {
    blocks[..i] + part + blocks[i + n..]
  }

  function TakeAt(blocks: seq<Block>, i: nat, size: nat): seq<Block>
    requires i < |blocks| && Fits(blocks[i], size)
  {
    Replace(blocks, i, 1, Taken(blocks[i], size))
  }

  /** Sizes below 32 are rounded up to 32. */
  function Rounded(size: nat): nat {
    if size < 32 then 32 else size
  }

  /** The payload of block `i`. */
  function PayloadAt(base: nat, blocks: seq<Block>, i: nat): nat
    requires i <= |blocks|
  {
    base + Span(blocks[..i]) + 32
  }

  lemma SpanThree(a: seq<Block>, b: seq<Block>, c: seq<Block>)
    ensures Span(a + b + c) == Span(a) + Span(b) + Span(c)
  {
    SpanSplit(a + b, c);
    SpanSplit(a, b);
  }

  lemma SpanReplace(blocks: seq<Block>, i: nat, n: nat, part: seq<Block>)
    requires i + n <= |blocks| && Span(part) == Span(blocks[i..i + n])
    ensures Span(Replace(blocks, i, n, part)) == Span(blocks)
    ensures Replace(blocks, i, n, part)[..i] == blocks[..i]
  {
    assert blocks == blocks[..i] + blocks[i..i + n] + blocks[i + n..];
    SpanThree(blocks[..i], blocks[i..i + n], blocks[i + n..]);
    SpanThree(blocks[..i], part, blocks[i + n..]);
  }

  lemma TakenSpan(b: Block, size: nat)
    requires Fits(b, size)
    ensures Span(Taken(b, size)) == 32 + b.size == Span([b])
  {
    SpanOne([b]);
    if b.size == size {
      SpanOne(Taken(b, size));
    } else {
      assert Taken(b, size) == [Block(size, true)] + [Block(b.size - size - 32, false)];
      SpanSplit([Block(size, true)], [Block(b.size - size - 32, false)]);
      SpanOne([Block(size, true)]);
      SpanOne([Block(b.size - size - 32, false)]);
    }
  }

  lemma SpanOne(x: seq<Block>)
    requires |x| == 1
    ensures Span(x) == 32 + x[0].size
  {
    assert x[1..] == [];
  }

  /** Allocation keeps the heap good. */
  lemma TakeKeeps(blocks: seq<Block>, i: nat, size: nat, total: nat)
    requires Good(blocks, total) && i < |blocks| && Fits(blocks[i], size) && 32 <= size
    ensures Good(TakeAt(blocks, i, size), total)
  {
    TakenSpan(blocks[i], size);
    assert blocks[i..i + 1] == [blocks[i]];
    SpanReplace(blocks, i, 1, Taken(blocks[i], size));
    var after := TakeAt(blocks, i, size);
    var n := |Taken(blocks[i], size)|;
    forall k | 0 <= k < |after| - 1 ensures after[k].used || after[k + 1].used {
      assert k + 1 < i ==> after[k] == blocks[k] && after[k + 1] == blocks[k + 1];
      assert k >= i + n ==> after[k] == blocks[k - n + 1] && after[k + 1] == blocks[k - n + 2];
    }
    forall k | 0 <= k < |after| ensures 32 <= after[k].size {
      assert k >= i + n ==> after[k] == blocks[k - n + 1];
    }
  }

  /** Changing a stretch of blocks changes the payloads in that stretch and no others. */
  lemma LiveReplace(base: nat, blocks: seq<Block>, i: nat, n: nat, part: seq<Block>)
    requires i + n <= |blocks| && Span(part) == Span(blocks[i..i + n])
    ensures var at := base + Span(blocks[..i]);
      && Live(base, blocks)
         == Live(at + Span(part), blocks[i + n..]) + Live(at, blocks[i..i + n]) + Live(base, blocks[..i])
      && Live(base, Replace(blocks, i, n, part))
         == Live(at + Span(part), blocks[i + n..]) + Live(at, part) + Live(base, blocks[..i])
  {
    var at := base + Span(blocks[..i]);
    assert blocks == blocks[..i] + (blocks[i..i + n] + blocks[i + n..]);
    LiveSplit(base, blocks[..i], blocks[i..i + n] + blocks[i + n..]);
    LiveSplit(at, blocks[i..i + n], blocks[i + n..]);
    assert Replace(blocks, i, n, part) == blocks[..i] + (part + blocks[i + n..]);
    LiveSplit(base, blocks[..i], part + blocks[i + n..]);
    LiveSplit(at, part, blocks[i + n..]);
  }

  lemma LiveOne(base: nat, x: seq<Block>)
    requires |x| == 1
    ensures Live(base, x) == if x[0].used then map[base + 32 := x[0].size] else map[]
  {
    assert x[1..] == [];
  }

  lemma LiveTaken(base: nat, b: Block, size: nat)
    requires Fits(b, size)
    ensures Live(base, Taken(b, size)) == map[base + 32 := size] && Live(base, [b]) == map[]
  {
    LiveOne(base, [b]);
    if b.size == size {
      LiveOne(base, Taken(b, size));
    } else {
      assert Taken(b, size) == [Block(size, true)] + [Block(b.size - size - 32, false)];
      LiveSplit(base, [Block(size, true)], [Block(b.size - size - 32, false)]);
      LiveOne(base, [Block(size, true)]);
      LiveOne(base + 32 + size, [Block(b.size - size - 32, false)]);
      SpanOne([Block(size, true)]);
    }
  }

  /** No other block's payload starts where block `i`'s does. */
  lemma PayloadApart(base: nat, blocks: seq<Block>, i: nat)
    requires i < |blocks|
    ensures PayloadAt(base, blocks, i) !in Live(base, blocks[..i])
    ensures PayloadAt(base, blocks, i) !in Live(base + Span(blocks[..i]) + 32 + blocks[i].size, blocks[i + 1..])
  {
    LiveApart(base, blocks[..i]);
    LiveApart(base + Span(blocks[..i]) + 32 + blocks[i].size, blocks[i + 1..]);
  }

  /** Allocation adds one payload, at an address no payload had, and leaves all others where they are. */
  lemma TakeAddsPayload(base: nat, blocks: seq<Block>, i: nat, size: nat)
    requires i < |blocks| && Fits(blocks[i], size)
    ensures PayloadAt(base, blocks, i) !in Live(base, blocks)
    ensures Live(base, TakeAt(blocks, i, size)) == Live(base, blocks)[PayloadAt(base, blocks, i) := size]
  {
    var at, p := base + Span(blocks[..i]), PayloadAt(base, blocks, i);
    var high, low := Live(at + 32 + blocks[i].size, blocks[i + 1..]), Live(base, blocks[..i]);
    assert Live(base, blocks) == high + map[] + low && Live(base, TakeAt(blocks, i, size)) == high + map[p := size] + low by {
      TakenSpan(blocks[i], size);
      assert blocks[i..i + 1] == [blocks[i]];
      LiveReplace(base, blocks, i, 1, Taken(blocks[i], size));
      LiveTaken(at, blocks[i], size);
    }
    PayloadApart(base, blocks, i);
    PutBetween(high, low, p, size);
  }

  lemma PutBetween(high: map<nat, nat>, low: map<nat, nat>, p: nat, size: nat)
    requires p !in low && p !in high
    ensures p !in high + map[] + low
    ensures high + map[p := size] + low == (high + map[] + low)[p := size]
  {}

  // -- freeing ----------------------------------------------------------------

  /** Two neighbours become one free block, the second one's header included. */
  function Merge(blocks: seq<Block>, k: nat): seq<Block>
    requires k + 1 < |blocks|
  {
    Replace(blocks, k, 2, [Block(blocks[k].size + blocks[k + 1].size + 32, false)])
  }

  /** Frees block `i` and merges it with the block before and with the block behind, if they are free. */
  function FreeAt(blocks: seq<Block>, i: nat): seq<Block>
    requires i < |blocks|
  {
    var freed := blocks[i := Block(blocks[i].size, false)];
    var left := if i > 0 && !freed[i - 1].used then Merge(freed, i - 1) else freed;
    var k := if i > 0 && !freed[i - 1].used then i - 1 else i;
    if k + 1 < |left| && !left[k + 1].used then Merge(left, k) else left
  }

  lemma MergeSpan(blocks: seq<Block>, k: nat)
    requires k + 1 < |blocks|
    ensures Span(blocks[k..k + 2]) == Span([Block(blocks[k].size + blocks[k + 1].size + 32, false)])
  {
    assert blocks[k..k + 2] == [blocks[k]] + [blocks[k + 1]];
    SpanSplit([blocks[k]], [blocks[k + 1]]);
    SpanOne([blocks[k]]);
    SpanOne([blocks[k + 1]]);
    SpanOne([Block(blocks[k].size + blocks[k + 1].size + 32, false)]);
  }

  /** Merging two free blocks changes no payload. */
  lemma MergeLive(base: nat, blocks: seq<Block>, k: nat)
    requires k + 1 < |blocks| && !blocks[k].used && !blocks[k + 1].used
    ensures Live(base, Merge(blocks, k)) == Live(base, blocks) && Span(Merge(blocks, k)) == Span(blocks)
  {
    var one := [Block(blocks[k].size + blocks[k + 1].size + 32, false)];
    var at := base + Span(blocks[..k]);
    MergeSpan(blocks, k);
    SpanReplace(blocks, k, 2, one);
    LiveReplace(base, blocks, k, 2, one);
    assert blocks[k..k + 2] == [blocks[k]] + [blocks[k + 1]];
    LiveSplit(at, [blocks[k]], [blocks[k + 1]]);
    LiveOne(at, [blocks[k]]);
    LiveOne(at + Span([blocks[k]]), [blocks[k + 1]]);
    LiveOne(at, one);
  }

  /** Clearing the mark of a used block takes its payload away, and no other. */
  lemma MarkLive(base: nat, blocks: seq<Block>, i: nat)
    requires i < |blocks| && blocks[i].used
    ensures var freed := blocks[i := Block(blocks[i].size, false)];
      && Live(base, freed) == Live(base, blocks) - {PayloadAt(base, blocks, i)} && Span(freed) == Span(blocks)
    ensures PayloadAt(base, blocks, i) in Live(base, blocks) && Live(base, blocks)[PayloadAt(base, blocks, i)] == blocks[i].size
  {
    var one := [Block(blocks[i].size, false)];
    var at, p := base + Span(blocks[..i]), PayloadAt(base, blocks, i);
    var freed := blocks[i := Block(blocks[i].size, false)];
    var high, low := Live(at + 32 + blocks[i].size, blocks[i + 1..]), Live(base, blocks[..i]);
    assert Span(freed) == Span(blocks) && Live(base, blocks) == high + map[p := blocks[i].size] + low
      && Live(base, freed) == high + map[] + low by
    {
      SpanOne(one);
      SpanOne([blocks[i]]);
      assert blocks[i..i + 1] == [blocks[i]];
      assert freed == Replace(blocks, i, 1, one);
      SpanReplace(blocks, i, 1, one);
      LiveReplace(base, blocks, i, 1, one);
      LiveOne(at, one);
      LiveOne(at, [blocks[i]]);
    }
    PayloadApart(base, blocks, i);
    PutBetween(high, low, p, blocks[i].size);
    PutAway(high + map[] + low, p, blocks[i].size);
  }

  lemma PutAway(m: map<nat, nat>, p: nat, size: nat)
    requires p !in m
    ensures m[p := size] - {p} == m
  {}

  /** Free takes the block's payload away and leaves all others where they are. */
  lemma FreeDropsPayload(base: nat, blocks: seq<Block>, i: nat)
    requires i < |blocks| && blocks[i].used
    ensures PayloadAt(base, blocks, i) in Live(base, blocks)
    ensures Live(base, FreeAt(blocks, i)) == Live(base, blocks) - {PayloadAt(base, blocks, i)}
    ensures Span(FreeAt(blocks, i)) == Span(blocks)
  {
    MarkLive(base, blocks, i);
    var freed := blocks[i := Block(blocks[i].size, false)];
    var left := if i > 0 && !freed[i - 1].used then Merge(freed, i - 1) else freed;
    var k := if i > 0 && !freed[i - 1].used then i - 1 else i;
    if i > 0 && !freed[i - 1].used {
      MergeLive(base, freed, i - 1);
    }
    if k + 1 < |left| && !left[k + 1].used {
      assert !left[k].used;
      MergeLive(base, left, k);
    }
  }

  lemma MergeElements(blocks: seq<Block>, k: nat)
    requires k + 1 < |blocks|
    ensures |Merge(blocks, k)| == |blocks| - 1
    ensures forall j | 0 <= j < |blocks| - 1 ::
      && (j < k ==> Merge(blocks, k)[j] == blocks[j])
      && (j == k ==> Merge(blocks, k)[j] == Block(blocks[k].size + blocks[k + 1].size + 32, false))
      && (j > k ==> Merge(blocks, k)[j] == blocks[j + 1])
  {}

  /** All is well but for the free block `k` and, perhaps, the one behind it. */
  ghost predicate GoodBut(blocks: seq<Block>, k: nat) {
    && k < |blocks| && !blocks[k].used
    && (forall i | 0 <= i < |blocks| :: 32 <= blocks[i].size)
    && (forall i | 0 <= i < |blocks| - 1 && i != k :: blocks[i].used || blocks[i + 1].used)
  }

  lemma MergeLeft(blocks: seq<Block>, freed: seq<Block>, i: nat)
    requires i < |blocks| && freed == blocks[i := Block(blocks[i].size, false)]
    requires NoFreeNeighbours(blocks) && forall j | 0 <= j < |blocks| :: 32 <= blocks[j].size
    ensures if i > 0 && !freed[i - 1].used then GoodBut(Merge(freed, i - 1), i - 1) else GoodBut(freed, i)
  {
    if i > 0 && !freed[i - 1].used {
      MergeElements(freed, i - 1);
    }
  }

  lemma MergeRight(left: seq<Block>, k: nat)
    requires GoodBut(left, k)
    ensures var after := if k + 1 < |left| && !left[k + 1].used then Merge(left, k) else left;
      && after != [] && NoFreeNeighbours(after) && forall j | 0 <= j < |after| :: 32 <= after[j].size
  {
    if k + 1 < |left| && !left[k + 1].used {
      MergeElements(left, k);
    }
  }

  /** Free keeps the heap good: merging leaves no two free neighbours. */
  lemma FreeKeeps(blocks: seq<Block>, i: nat, total: nat)
    requires Good(blocks, total) && i < |blocks| && blocks[i].used
    ensures Good(FreeAt(blocks, i), total)
  {
    FreeDropsPayload(0, blocks, i);
    var freed := blocks[i := Block(blocks[i].size, false)];
    MergeLeft(blocks, freed, i);
    var left := if i > 0 && !freed[i - 1].used then Merge(freed, i - 1) else freed;
    MergeRight(left, if i > 0 && !freed[i - 1].used then i - 1 else i);
  }

  /** Freeing a block just allocated, with nothing in between, gives back the identical list of blocks. */
  lemma FreeUndoesTake(blocks: seq<Block>, i: nat, size: nat, total: nat)
    requires Good(blocks, total) && i < |blocks| && Fits(blocks[i], size)
    ensures i < |TakeAt(blocks, i, size)| && FreeAt(TakeAt(blocks, i, size), i) == blocks
  {
    var after := TakeAt(blocks, i, size);
    assert i > 0 ==> blocks[i - 1].used && after[i - 1] == blocks[i - 1];
    assert i + 1 < |blocks| ==> blocks[i + 1].used;
    var freed := after[i := Block(size, false)];
    if blocks[i].size == size {
      assert freed == blocks;
    } else {
      assert freed[i + 1] == Block(blocks[i].size - size - 32, false);
      MergeElements(freed, i);
      assert Merge(freed, i) == blocks;
    }
  }

  // -- whole runs -------------------------------------------------------------

  /** The block whose payload starts at `p`. */
  ghost predicate PayloadOf(base: nat, blocks: seq<Block>, i: nat, p: nat) {
    i < |blocks| && PayloadAt(base, blocks, i) == p
  }

  lemma {:induction false} LiveInside(base: nat, blocks: seq<Block>, p: nat)
    requires forall i | 0 <= i < |blocks| :: blocks[i].size > 0
    ensures p in Live(base, blocks) ==> base <= p < base + Span(blocks)
    decreases |blocks|
  {
    if blocks != [] {
      LiveInside(base + 32 + blocks[0].size, blocks[1..], p);
    }
  }

  /** A block's payload is live exactly when the block is in use. */
  lemma {:induction false} LiveBlock(base: nat, blocks: seq<Block>, i: nat)
    requires i < |blocks|
    ensures PayloadAt(base, blocks, i) in Live(base, blocks) <==> blocks[i].used
    decreases |blocks|
  {
    var rest := base + 32 + blocks[0].size;
    LiveApart(rest, blocks[1..]);
    if i == 0 {
      assert blocks[..0] == [];
    } else {
      LiveBlock(rest, blocks[1..], i - 1);
      assert blocks[..i] == [blocks[0]] + blocks[1..][..i - 1];
      SpanSplit([blocks[0]], blocks[1..][..i - 1]);
      SpanOne([blocks[0]]);
    }
  }

  /** `before` becomes `after` when the live payload `p` is freed. */
  ghost predicate Frees(base: nat, before: seq<Block>, p: nat, after: seq<Block>) {
    exists i: nat {:trigger PayloadOf(base, before, i, p)} ::
      PayloadOf(base, before, i, p) && before[i].used && after == FreeAt(before, i)
  }

  /** Payload addresses are freed one after the other. */
  ghost predicate FreeRun(base: nat, states: seq<seq<Block>>, ptrs: seq<nat>) {
    |states| == |ptrs| + 1 && forall i | 0 <= i < |ptrs| :: Frees(base, states[i], ptrs[i], states[i + 1])
  }

  lemma {:induction false} FreeRunKeeps(base: nat, states: seq<seq<Block>>, ptrs: seq<nat>, total: nat)
    requires FreeRun(base, states, ptrs) && Good(states[0], total)
    ensures Good(states[|ptrs|], total)
    ensures Live(base, states[|ptrs|]).Keys == Live(base, states[0]).Keys - Elements(ptrs)
  {
    if ptrs != [] {
      var n := |ptrs| - 1;
      assert ptrs == ptrs[..n] + [ptrs[n]];
      FreeRunKeeps(base, states[..n + 1], ptrs[..n], total);
      assert Frees(base, states[n], ptrs[n], states[n + 1]);
      var i: nat :| PayloadOf(base, states[n], i, ptrs[n]) && states[n][i].used && states[n + 1] == FreeAt(states[n], i);
      FreeKeeps(states[n], i, total);
      FreeDropsPayload(base, states[n], i);
      forall p ensures p in Elements(ptrs) <==> p in Elements(ptrs[..n]) || p == ptrs[n] {
        assert p in ptrs <==> p in ptrs[..n] + [ptrs[n]];
      }
    } else {
      assert Elements(ptrs) == {};
    }
  }

  lemma FirstTwo(blocks: seq<Block>)
    requires NoFreeNeighbours(blocks)
    ensures |blocks| > 1 ==> blocks[0].used || blocks[1].used
  {}

  /** Without live payloads no block is in use, so there is just one. */
  lemma NoneLive(base: nat, blocks: seq<Block>, total: nat)
    requires Good(blocks, total) && Live(base, blocks) == map[]
    ensures blocks == [Block(total - 32, false)]
  {
    forall i | 0 <= i < |blocks| ensures !blocks[i].used {
      if blocks[i].used {
        MarkLive(base, blocks, i);
      }
    }
    FirstTwo(blocks);
    SpanOne(blocks);
  }

  /**
    Freeing all live payloads, in whatever order, leaves one free block: the whole
    heap but for one header.
   */
  lemma FreeingAllLeavesOneBlock(base: nat, states: seq<seq<Block>>, ptrs: seq<nat>, total: nat)
    requires FreeRun(base, states, ptrs) && Good(states[0], total)
    requires forall p :: p in Live(base, states[0]) <==> p in ptrs
    ensures states[|ptrs|] == [Block(total - 32, false)]
  {
    FreeRunKeeps(base, states, ptrs, total);
    assert Live(base, states[|ptrs|]).Keys == {};
    NoneLive(base, states[|ptrs|], total);
  }

  datatype Op = AllocOp(size: nat) | FreeOp(p: nat)

  /** One completed call: an allocation that may fail for want of room, or the freeing of a live payload. */
  ghost predicate Calls(base: nat, before: seq<Block>, op: Op, after: seq<Block>) {
    match op
    case AllocOp(size) =>
      var i := FirstFit(before, Rounded(size));
      after == if i < |before| then TakeAt(before, i, Rounded(size)) else before
    case FreeOp(p) => Frees(base, before, p, after)
  }

  ghost predicate Run(base: nat, states: seq<seq<Block>>, ops: seq<Op>) {
    |states| == |ops| + 1 && forall i | 0 <= i < |ops| :: Calls(base, states[i], ops[i], states[i + 1])
  }

  /** Over every sequence of calls the heap stays good. */
  lemma {:induction false} RunKeeps(base: nat, states: seq<seq<Block>>, ops: seq<Op>, total: nat)
    requires Run(base, states, ops) && Good(states[0], total)
    ensures Good(states[|ops|], total)
  {
    if ops != [] {
      var n := |ops| - 1;
      RunKeeps(base, states[..n + 1], ops[..n], total);
      assert Calls(base, states[n], ops[n], states[n + 1]);
      match ops[n]
      case AllocOp(size) =>
        var k := FirstFit(states[n], Rounded(size));
        if k < |states[n]| {
          TakeKeeps(states[n], k, Rounded(size), total);
        }
      case FreeOp(p) =>
        var i: nat :| PayloadOf(base, states[n], i, p) && states[n][i].used && states[n + 1] == FreeAt(states[n], i);
        FreeKeeps(states[n], i, total);
    }
  }

  // -- headers ----------------------------------------------------------------

  datatype NodeStatus = USED | FREE

  /** `heap_node`; 0 is the null pointer. */
  datatype HeapNode = HeapNode(size: nat, status: NodeStatus, prev: nat, next: nat)

  type Headers = map<nat, HeapNode>

  /** Where block `i` starts. */
  function NodeAt(base: nat, blocks: seq<Block>, i: nat): nat
    requires i <= |blocks|
  {
    base + Span(blocks[..i])
  }

  /** Where all blocks start. */
  function Starts(base: nat, blocks: seq<Block>): (at: seq<nat>)
    ensures |at| == |blocks|
  {
    seq(|blocks|, i requires 0 <= i < |blocks| => NodeAt(base, blocks, i))
  }

  /** Headers for `blocks` at the addresses `at`, doubly linked in that order. */
  ghost predicate Linked(mem: Headers, at: seq<nat>, blocks: seq<Block>) {
    && |at| == |blocks| && NoRepeats(at) && 0 !in at
    && forall i | 0 <= i < |at| :: HeaderAt(mem, at, blocks, i)
  }

  ghost predicate HeaderAt(mem: Headers, at: seq<nat>, blocks: seq<Block>, i: nat)
    requires i < |at| == |blocks|
  {
    at[i] in mem && mem[at[i]] == HeaderOf(at, blocks, i)
  }

  function HeaderOf(at: seq<nat>, blocks: seq<Block>, i: nat): HeapNode
    requires i < |at| == |blocks|
  {
    HeapNode(blocks[i].size, if blocks[i].used then USED else FREE,
             if i == 0 then 0 else at[i - 1], if i + 1 < |at| then at[i + 1] else 0)
  }

  /** The headers in memory are those of the blocks. */
  ghost predicate Holds(mem: Headers, base: nat, blocks: seq<Block>) {
    Linked(mem, Starts(base, blocks), blocks)
  }

  lemma NextNode(base: nat, blocks: seq<Block>, i: nat)
    requires i < |blocks|
    ensures NodeAt(base, blocks, i + 1) == NodeAt(base, blocks, i) + 32 + blocks[i].size
  {
    assert blocks[..i + 1] == blocks[..i] + [blocks[i]];
    SpanSplit(blocks[..i], [blocks[i]]);
    SpanOne([blocks[i]]);
  }

  lemma {:induction false} NodesApart(base: nat, blocks: seq<Block>, i: nat, j: nat)
    requires i < j <= |blocks|
    ensures NodeAt(base, blocks, i) + 32 + blocks[i].size <= NodeAt(base, blocks, j)
    decreases j
  {
    NextNode(base, blocks, j - 1);
    if i < j - 1 {
      NodesApart(base, blocks, i, j - 1);
    }
  }

  /** A header and a live payload never overlap. */
  lemma HeaderOutsideLive(base: nat, blocks: seq<Block>, i: nat, p: nat)
    requires i < |blocks| && p in Live(base, blocks)
    ensures NodeAt(base, blocks, i) + 32 <= p || p + Live(base, blocks)[p] <= NodeAt(base, blocks, i)
  {
    assert blocks == blocks[..i] + blocks[i..];
    LiveSplit(base, blocks[..i], blocks[i..]);
    LiveApart(base, blocks[..i]);
    LiveApart(NodeAt(base, blocks, i), blocks[i..]);
  }

  /** Taking in the following node: the pointer updates both merges of `free` come to. */
  function MergeMem(mem: Headers, node: nat): Headers
    requires node in mem && mem[node].next in mem
  {
    var next := mem[node].next;
    var after := mem[next].next;
    var m := mem[node := mem[node].(size := mem[node].size + mem[next].size + 32, next := after)];
    if after in m && after != 0 then m[after := m[after].(prev := node)] else m
  }

  lemma NodesAfterMerge(base: nat, blocks: seq<Block>, k: nat, j: nat)
    requires k + 1 < |blocks| && j < |blocks|
    ensures |Merge(blocks, k)| == |blocks| - 1
    ensures NodeAt(base, Merge(blocks, k), j) == NodeAt(base, blocks, if j <= k then j else j + 1)
  {
    MergeElements(blocks, k);
    var one := Block(blocks[k].size + blocks[k + 1].size + 32, false);
    if j <= k {
      assert Merge(blocks, k)[..j] == blocks[..j];
    } else {
      MergeSpan(blocks, k);
      assert Merge(blocks, k)[..j] == blocks[..k] + ([one] + blocks[k + 2..j + 1]);
      assert blocks[..j + 1] == blocks[..k] + (blocks[k..k + 2] + blocks[k + 2..j + 1]);
      SpanSplit(blocks[..k], [one] + blocks[k + 2..j + 1]);
      SpanSplit([one], blocks[k + 2..j + 1]);
      SpanSplit(blocks[..k], blocks[k..k + 2] + blocks[k + 2..j + 1]);
      SpanSplit(blocks[k..k + 2], blocks[k + 2..j + 1]);
    }
  }

  function Drop(at: seq<nat>, k: nat): seq<nat>
    requires k < |at|
  {
    at[..k] + at[k + 1..]
  }

  /** What the merge writes: the header that grows, and the back link behind it. */
  lemma MergeWrites(mem: Headers, at: seq<nat>, blocks: seq<Block>, k: nat, j: nat)
    requires Linked(mem, at, blocks) && k + 1 < |at| && j < |at| && j != k + 1
    ensures at[k] in mem && at[k + 1] in mem && mem[at[k]].next == at[k + 1]
    ensures var mem' := MergeMem(mem, at[k]);
      && at[j] in mem' && at[j] in mem && mem[at[j]] == HeaderOf(at, blocks, j)
      && mem'[at[j]] ==
          (if j == k then mem[at[j]].(size := blocks[k].size + blocks[k + 1].size + 32,
                                      next := if k + 2 < |at| then at[k + 2] else 0)
           else if j == k + 2 then mem[at[j]].(prev := at[k])
           else mem[at[j]])
  {
    assert HeaderAt(mem, at, blocks, k) && HeaderAt(mem, at, blocks, k + 1) && HeaderAt(mem, at, blocks, j);
    assert at[j] in at;
    Different(at, j, k);
    if k + 2 < |at| {
      assert HeaderAt(mem, at, blocks, k + 2) && at[k + 2] in at;
      Different(at, j, k + 2);
      Different(at, k, k + 2);
    }
  }

  /** Merging takes one node out of the list. */
  lemma MergeLinked(mem: Headers, at: seq<nat>, blocks: seq<Block>, k: nat)
    requires Linked(mem, at, blocks) && k + 1 < |at| && !blocks[k].used && !blocks[k + 1].used
    ensures at[k] in mem && mem[at[k]].next in mem && |Merge(blocks, k)| == |at| - 1
    ensures Linked(MergeMem(mem, at[k]), Drop(at, k + 1), Merge(blocks, k))
  {
    MergeElements(blocks, k);
    assert HeaderAt(mem, at, blocks, k) && HeaderAt(mem, at, blocks, k + 1);
    assert k + 2 < |at| ==> HeaderAt(mem, at, blocks, k + 2) && at[k + 2] in at;
    var mem', at', merged := MergeMem(mem, at[k]), Drop(at, k + 1), Merge(blocks, k);
    forall j: nat | j < |at| - 1 ensures HeaderAt(mem', at', merged, j) {
      MergeWrites(mem, at, blocks, k, if j <= k then j else j + 1);
    }
  }

  lemma StartsAfterMerge(base: nat, blocks: seq<Block>, k: nat)
    requires k + 1 < |blocks|
    ensures Starts(base, Merge(blocks, k)) == Drop(Starts(base, blocks), k + 1)
  {
    MergeElements(blocks, k);
    forall j: nat | j < |blocks| - 1
      ensures Starts(base, Merge(blocks, k))[j] == Drop(Starts(base, blocks), k + 1)[j]
    {
      NodesAfterMerge(base, blocks, k, j);
    }
  }

  lemma MergeHolds(mem: Headers, base: nat, blocks: seq<Block>, k: nat)
    requires Holds(mem, base, blocks) && k + 1 < |blocks| && !blocks[k].used && !blocks[k + 1].used
    ensures NodeAt(base, blocks, k) in mem && mem[NodeAt(base, blocks, k)].next in mem
    ensures Holds(MergeMem(mem, NodeAt(base, blocks, k)), base, Merge(blocks, k))
  {
    MergeLinked(mem, Starts(base, blocks), blocks, k);
    StartsAfterMerge(base, blocks, k);
  }

  /** Splitting a node: the pointer updates of `alloc`. */
  function SplitMem(mem: Headers, cur: nat, size: nat): Headers
    requires cur in mem && mem[cur].size >= size + 32 && (mem[cur].next != 0 ==> mem[cur].next in mem)
  {
    var spare, next := cur + size + 32, mem[cur].next;
    var m := mem[spare := HeapNode(mem[cur].size - size - 32, FREE, cur, next)];
    var n := if next != 0 then m[next := m[next].(prev := spare)] else m;
    n[cur := n[cur].(next := spare, status := USED, size := size)]
  }

  /** `r` is `at` with `x` put behind place `i`. */
  ghost predicate InsertOf(at: seq<nat>, i: nat, x: nat, r: seq<nat>) {
    && i < |at| && |r| == |at| + 1 && r[i + 1] == x
    && (forall j {:trigger r[j]} | 0 <= j <= i :: r[j] == at[j])
    && (forall j {:trigger r[j]} | i + 1 < j < |r| :: r[j] == at[j - 1])
  }

  function Insert(at: seq<nat>, i: nat, x: nat): (r: seq<nat>)
    requires i < |at|
    ensures InsertOf(at, i, x, r)
  {
    at[..i + 1] + [x] + at[i + 1..]
  }

  /** `after` is `blocks` with block `i` split. */
  ghost predicate SplitOf(blocks: seq<Block>, i: nat, size: nat, after: seq<Block>) {
    && i < |blocks| && size + 32 <= blocks[i].size && |after| == |blocks| + 1
    && after[i] == Block(size, true) && after[i + 1] == Block(blocks[i].size - size - 32, false)
    && (forall j {:trigger after[j]} | 0 <= j < i :: after[j] == blocks[j])
    && (forall j {:trigger after[j]} | i + 1 < j < |after| :: after[j] == blocks[j - 1])
  }

  lemma SplitElements(blocks: seq<Block>, i: nat, size: nat)
    requires i < |blocks| && Fits(blocks[i], size) && blocks[i].size != size
    ensures SplitOf(blocks, i, size, TakeAt(blocks, i, size))
  {}

  ghost predicate CanSplit(mem: Headers, at: seq<nat>, blocks: seq<Block>, i: nat, size: nat) {
    && Linked(mem, at, blocks) && i < |at| && Fits(blocks[i], size) && blocks[i].size != size
    && at[i] + size + 32 !in at
  }

  lemma SplitReady(mem: Headers, at: seq<nat>, blocks: seq<Block>, i: nat, size: nat)
    requires CanSplit(mem, at, blocks, i, size)
    ensures at[i] in mem && mem[at[i]].size >= size + 32 && (mem[at[i]].next != 0 ==> mem[at[i]].next in mem)
    ensures mem[at[i]] == HeaderOf(at, blocks, i)
    ensures i + 1 < |at| ==> at[i + 1] != 0
  {
    assert HeaderAt(mem, at, blocks, i);
    assert i + 1 < |at| ==> HeaderAt(mem, at, blocks, i + 1) && at[i + 1] in at;
  }

  /** Each header after the split. */
  lemma SplitHeader(mem: Headers, at: seq<nat>, blocks: seq<Block>, i: nat, size: nat, at': seq<nat>, after: seq<Block>, j: nat)
    requires CanSplit(mem, at, blocks, i, size) && SplitOf(blocks, i, size, after) && j <= |at|
    requires InsertOf(at, i, at[i] + size + 32, at')
    requires at[i] in mem && mem[at[i]].size >= size + 32 && (mem[at[i]].next != 0 ==> mem[at[i]].next in mem)
    ensures HeaderAt(SplitMem(mem, at[i], size), at', after, j)
  {
    SplitReady(mem, at, blocks, i, size);
    if j < i {
      SplitWrites(mem, at, blocks, i, size, j);
      assert at'[j + 1] == at[j + 1] && (j > 0 ==> at'[j - 1] == at[j - 1]);
    } else if j == i {
      SplitWrites(mem, at, blocks, i, size, i);
      assert HeaderAt(mem, at, blocks, i) && (i > 0 ==> at'[i - 1] == at[i - 1]);
    } else if j > i + 1 {
      SplitWrites(mem, at, blocks, i, size, j - 1);
    } else {
      SplitWrites(mem, at, blocks, i, size, i);
    }
  }

  /** What the split writes: the new header, the one split, and the back link behind it. */
  lemma SplitWrites(mem: Headers, at: seq<nat>, blocks: seq<Block>, i: nat, size: nat, k: nat)
    requires CanSplit(mem, at, blocks, i, size) && k < |at|
    requires at[i] in mem && mem[at[i]].size >= size + 32 && (mem[at[i]].next != 0 ==> mem[at[i]].next in mem)
    ensures var mem', spare := SplitMem(mem, at[i], size), at[i] + size + 32; var next := if i + 1 < |at| then at[i + 1] else 0;
      && spare in mem' && mem'[spare] == HeapNode(blocks[i].size - size - 32, FREE, at[i], next)
      && at[k] in mem' && at[k] in mem && mem[at[k]] == HeaderOf(at, blocks, k)
      && mem'[at[k]] == if k == i then mem[at[k]].(next := spare, status := USED, size := size)
                        else if k == i + 1 then mem[at[k]].(prev := spare)
                        else mem[at[k]]
  {
    SplitReady(mem, at, blocks, i, size);
    assert at[k] in at && at[i] in at && (i + 1 < |at| ==> at[i + 1] in at);
    assert HeaderAt(mem, at, blocks, k);
    Different(at, k, i);
    if i + 1 < |at| {
      Different(at, k, i + 1);
      Different(at, i, i + 1);
    }
  }

  lemma Different(at: seq<nat>, j: nat, k: nat)
    requires NoRepeats(at) && j < |at| && k < |at|
    ensures j != k ==> at[j] != at[k]
  {}

  /** Splitting puts one node into the list. */
  lemma SplitLinked(mem: Headers, at: seq<nat>, blocks: seq<Block>, i: nat, size: nat)
    requires CanSplit(mem, at, blocks, i, size)
    ensures at[i] in mem && mem[at[i]].size >= size + 32 && (mem[at[i]].next != 0 ==> mem[at[i]].next in mem)
    ensures Linked(SplitMem(mem, at[i], size), Insert(at, i, at[i] + size + 32), TakeAt(blocks, i, size))
  {
    SplitReady(mem, at, blocks, i, size);
    SplitElements(blocks, i, size);
    var at', after := Insert(at, i, at[i] + size + 32), TakeAt(blocks, i, size);
    var mem' := SplitMem(mem, at[i], size);
    forall j: nat | j <= |at| ensures HeaderAt(mem', at', after, j) {
      SplitHeader(mem, at, blocks, i, size, at', after, j);
    }
    InsertDistinct(at, i, at[i] + size + 32);
  }

  lemma InsertDistinct(at: seq<nat>, i: nat, x: nat)
    requires i < |at| && NoRepeats(at) && 0 !in at && x !in at && x != 0
    ensures NoRepeats(Insert(at, i, x)) && 0 !in Insert(at, i, x)
  {
    var r := Insert(at, i, x);
    forall j, k | 0 <= j < k < |r| ensures r[j] != r[k] {
      assert j != i + 1 ==> r[j] in at;
      assert k != i + 1 ==> r[k] in at;
    }
  }

  lemma NodesAfterSplit(base: nat, blocks: seq<Block>, i: nat, size: nat, j: nat)
    requires i < |blocks| && Fits(blocks[i], size) && blocks[i].size != size && j <= |blocks|
    ensures |TakeAt(blocks, i, size)| == |blocks| + 1
    ensures NodeAt(base, TakeAt(blocks, i, size), j) ==
      if j <= i then NodeAt(base, blocks, j) else if j == i + 1 then NodeAt(base, blocks, i) + 32 + size
      else NodeAt(base, blocks, j - 1)
  {
    var after, two := TakeAt(blocks, i, size), Taken(blocks[i], size);
    if j <= i {
      assert after[..j] == blocks[..j];
    } else if j == i + 1 {
      assert after[..i] == blocks[..i];
      NextNode(base, after, i);
    } else {
      TakenSpan(blocks[i], size);
      assert after[..j] == blocks[..i] + (two + blocks[i + 1..j - 1]);
      assert blocks[..j - 1] == blocks[..i] + ([blocks[i]] + blocks[i + 1..j - 1]);
      SpanSplit(blocks[..i], two + blocks[i + 1..j - 1]);
      SpanSplit(two, blocks[i + 1..j - 1]);
      SpanSplit(blocks[..i], [blocks[i]] + blocks[i + 1..j - 1]);
      SpanSplit([blocks[i]], blocks[i + 1..j - 1]);
    }
  }

  lemma StartsAfterSplit(base: nat, blocks: seq<Block>, i: nat, size: nat)
    requires i < |blocks| && Fits(blocks[i], size) && blocks[i].size != size
    ensures var at := Starts(base, blocks);
      Starts(base, TakeAt(blocks, i, size)) == Insert(at, i, at[i] + size + 32)
  {
    var at := Starts(base, blocks);
    NodesAfterSplit(base, blocks, i, size, 0);
    forall j: nat | j <= |blocks|
      ensures Starts(base, TakeAt(blocks, i, size))[j] == Insert(at, i, at[i] + size + 32)[j]
    {
      NodesAfterSplit(base, blocks, i, size, j);
    }
  }

  /** The new header lies inside the block that is split. */
  lemma NewNodeApart(base: nat, blocks: seq<Block>, i: nat, size: nat)
    requires i < |blocks| && Fits(blocks[i], size) && blocks[i].size != size
    ensures NodeAt(base, blocks, i) + size + 32 !in Starts(base, blocks)
  {
    forall j | 0 <= j < |blocks| ensures NodeAt(base, blocks, j) != NodeAt(base, blocks, i) + size + 32 {
      if j < i {
        NodesApart(base, blocks, j, i);
      } else if j > i {
        NodesApart(base, blocks, i, j);
      }
    }
  }

  lemma SplitHolds(mem: Headers, base: nat, blocks: seq<Block>, i: nat, size: nat, at: seq<nat>)
    requires at == Starts(base, blocks) && Linked(mem, at, blocks)
    requires i < |blocks| && Fits(blocks[i], size) && blocks[i].size != size
    ensures CanSplit(mem, at, blocks, i, size)
    ensures at[i] in mem && mem[at[i]].size >= size + 32 && (mem[at[i]].next != 0 ==> mem[at[i]].next in mem)
    ensures Holds(SplitMem(mem, at[i], size), base, TakeAt(blocks, i, size))
  {
    NewNodeApart(base, blocks, i, size);
    assert at[i] == NodeAt(base, blocks, i);
    SplitLinked(mem, at, blocks, i, size);
    StartsAfterSplit(base, blocks, i, size);
    LinkedHolds(SplitMem(mem, at[i], size), base, TakeAt(blocks, i, size), Insert(at, i, at[i] + size + 32));
  }

  lemma LinkedHolds(mem: Headers, base: nat, blocks: seq<Block>, at: seq<nat>)
    requires at == Starts(base, blocks) && Linked(mem, at, blocks)
    ensures Holds(mem, base, blocks)
  {}

  /** Marking a block changes its header's status and nothing else. */
  lemma MarkHolds(mem: Headers, base: nat, blocks: seq<Block>, i: nat, used: bool)
    requires Holds(mem, base, blocks) && i < |blocks|
    ensures NodeAt(base, blocks, i) in mem
    ensures Holds(mem[NodeAt(base, blocks, i) := mem[NodeAt(base, blocks, i)].(status := if used then USED else FREE)],
                  base, blocks[i := Block(blocks[i].size, used)])
  {
    var at, marked := Starts(base, blocks), blocks[i := Block(blocks[i].size, used)];
    MarkedStarts(base, blocks, i, used);
    assert HeaderAt(mem, at, blocks, i);
    var mem' := mem[at[i] := mem[at[i]].(status := if used then USED else FREE)];
    forall j: nat | j < |at| ensures HeaderAt(mem', at, marked, j) {
      assert HeaderAt(mem, at, blocks, j);
      Different(at, j, i);
    }
  }

  lemma MarkedStarts(base: nat, blocks: seq<Block>, i: nat, used: bool)
    requires i < |blocks|
    ensures Starts(base, blocks[i := Block(blocks[i].size, used)]) == Starts(base, blocks)
  {
    var marked := blocks[i := Block(blocks[i].size, used)];
    forall j: nat | j < |blocks| ensures Starts(base, marked)[j] == Starts(base, blocks)[j] {
      MarkedNodes(base, blocks, i, used, j);
    }
  }

  lemma {:induction false} MarkedNodes(base: nat, blocks: seq<Block>, i: nat, used: bool, j: nat)
    requires i < |blocks| && j <= |blocks|
    ensures NodeAt(base, blocks[i := Block(blocks[i].size, used)], j) == NodeAt(base, blocks, j)
    decreases j
  {
    var marked := blocks[i := Block(blocks[i].size, used)];
    if j > 0 {
      MarkedNodes(base, blocks, i, used, j - 1);
      NextNode(base, blocks, j - 1);
      NextNode(base, marked, j - 1);
    } else {
      assert marked[..0] == blocks[..0];
    }
  }

  // -- the allocator ----------------------------------------------------------

  /** The second size test of `alloc`, whose sum is taken modulo 2^64. */
  predicate FitsAsCoded(b: Block, size: nat) {
    !b.used && (b.size == size || b.size >= (size + 64) % 0x1_0000_0000_0000_0000)
  }

  /** The sum in the test does not wrap, or no free block is so large that the wrapped sum passes it. */
  ghost predicate Unwrapped(blocks: seq<Block>, size: nat) {
    size + 64 < 0x1_0000_0000_0000_0000
    || forall b | b in blocks && !b.used && b.size != size :: b.size < size + 64 - 0x1_0000_0000_0000_0000
  }

  lemma {:induction false} SizesBelow(blocks: seq<Block>, b: Block)
    requires b in blocks
    ensures b.size + 32 <= Span(blocks)
  {
    if blocks[0] != b {
      SizesBelow(blocks[1..], b);
    }
  }

  /** The test in the code means what it should for every block exactly when the sum is harmless. */
  lemma CodedTestExactlyWhen(blocks: seq<Block>, size: nat)
    requires Span(blocks) < 0x1_0000_0000_0000_0000 && size < 0x1_0000_0000_0000_0000
    ensures (forall b | b in blocks :: FitsAsCoded(b, size) <==> Fits(b, size)) <==> Unwrapped(blocks, size)
  {
    forall b | b in blocks ensures b.size + 32 <= Span(blocks) {
      SizesBelow(blocks, b);
    }
  }

  /**
    With a free block of 63 bytes or more, as there is unless the heap is all but
    full, what a caller has to check is the request alone: the sum must not wrap.
   */
  lemma CodedTestWithSpare(blocks: seq<Block>, b: Block, size: nat)
    requires Span(blocks) < 0x1_0000_0000_0000_0000 && size < 0x1_0000_0000_0000_0000
    requires b in blocks && !b.used && b.size >= 63 && b.size != size
    ensures (forall c | c in blocks :: FitsAsCoded(c, size) <==> Fits(c, size)) <==> size + 64 < 0x1_0000_0000_0000_0000
  {
    CodedTestExactlyWhen(blocks, size);
  }

  /** A request for all but one byte of the address space passes the test on a free block of 64 bytes. */
  lemma WrappedTestExample()
    ensures FitsAsCoded(Block(64, false), 0xffff_ffff_ffff_ffff) && !Fits(Block(64, false), 0xffff_ffff_ffff_ffff)
  {
    assert (0xffff_ffff_ffff_ffff + 64) % 0x1_0000_0000_0000_0000 == 63;
  }

  /** The headers outside `places` are as they were. */
  ghost predicate OnlyIn(mem: Headers, mem': Headers, places: set<nat>) {
    forall h | h !in places :: (h in mem' <==> h in mem) && (h in mem ==> mem'[h] == mem[h])
  }

  /** Addresses of headers of either list of blocks. */
  ghost function HeaderPlaces(base: nat, before: seq<Block>, after: seq<Block>): set<nat> {
    Elements(Starts(base, before)) + Elements(Starts(base, after))
  }

  /** A call that writes headers only never touches a payload live before and after it. */
  lemma LivePayloadsUnwritten(base: nat, before: seq<Block>, after: seq<Block>, mem: Headers, mem': Headers, h: nat, p: nat)
    requires OnlyIn(mem, mem', HeaderPlaces(base, before, after)) && h in mem' && (h in mem ==> mem'[h] != mem[h])
    requires p in Live(base, before) && p in Live(base, after) && Live(base, before)[p] == Live(base, after)[p]
    ensures h + 32 <= p || p + Live(base, before)[p] <= h
  {
    if h in Starts(base, before) {
      var i: nat :| i < |before| && Starts(base, before)[i] == h;
      HeaderOutsideLive(base, before, i, p);
    } else {
      assert h in Starts(base, after);
      var i: nat :| i < |after| && Starts(base, after)[i] == h;
      HeaderOutsideLive(base, after, i, p);
    }
  }

  lemma SplitOnlyHeaders(mem: Headers, base: nat, blocks: seq<Block>, i: nat, size: nat, at: seq<nat>)
    requires at == Starts(base, blocks) && CanSplit(mem, at, blocks, i, size)
    requires at[i] in mem && mem[at[i]].size >= size + 32 && (mem[at[i]].next != 0 ==> mem[at[i]].next in mem)
    ensures OnlyIn(mem, SplitMem(mem, at[i], size), HeaderPlaces(base, blocks, TakeAt(blocks, i, size)))
  {
    StartsAfterSplit(base, blocks, i, size);
    var at' := Insert(at, i, at[i] + size + 32);
    assert at'[i + 1] in at' && at[i] in at && HeaderAt(mem, at, blocks, i);
    assert i + 1 < |at| ==> at[i + 1] in at;
  }

  lemma MergeOnlyHeaders(mem: Headers, base: nat, blocks: seq<Block>, k: nat, at: seq<nat>)
    requires at == Starts(base, blocks) && Linked(mem, at, blocks) && k + 1 < |at|
    requires at[k] in mem && mem[at[k]].next in mem
    ensures OnlyIn(mem, MergeMem(mem, at[k]), Elements(at))
  {
    assert HeaderAt(mem, at, blocks, k) && HeaderAt(mem, at, blocks, k + 1) && at[k] in at;
    assert k + 2 < |at| ==> at[k + 2] in at;
  }

  lemma HeaderIs(mem: Headers, base: nat, blocks: seq<Block>, i: nat)
    requires Holds(mem, base, blocks) && i < |blocks|
    ensures NodeAt(base, blocks, i) in mem && NodeAt(base, blocks, i) != 0
    ensures mem[NodeAt(base, blocks, i)] ==
      HeapNode(blocks[i].size, if blocks[i].used then USED else FREE,
               if i == 0 then 0 else NodeAt(base, blocks, i - 1),
               if i + 1 < |blocks| then NodeAt(base, blocks, i + 1) else 0)
  {
    var at := Starts(base, blocks);
    assert HeaderAt(mem, at, blocks, i) && at[i] in at;
  }

  lemma DropIsPart(at: seq<nat>, k: nat)
    requires k < |at|
    ensures Elements(Drop(at, k)) <= Elements(at)
  {
    forall x | x in Drop(at, k) ensures x in at {
      assert x in at[..k] || x in at[k + 1..];
    }
  }

  lemma FirstHeader(mem: Headers, base: nat, size: nat)
    requires base > 0 && size >= 64
    ensures Holds(map[base := HeapNode(size - 32, FREE, 0, 0)], base, [Block(size - 32, false)])
    ensures Good([Block(size - 32, false)], size)
  {
    var blocks := [Block(size - 32, false)];
    SpanOne(blocks);
    assert blocks[..0] == [];
    assert Starts(base, blocks) == [base];
  }

  class Allocator {
    var first: nat
    const addr: nat
    const size: nat
    /** The headers in the managed memory, by address; what is elsewhere in the map is left over and unused. */
    var mem: Headers
    /** The blocks the headers describe. */
    ghost var blocks: seq<Block>

    /** The headers are a proper list of blocks. */
    ghost predicate Shape()
      reads this
    {
      first == addr && 0 < addr && addr + size < 0x1_0000_0000_0000_0000 && blocks != [] && Holds(mem, addr, blocks)
    }

    ghost predicate Valid()
      reads this
    {
      Shape() && Good(blocks, size)
    }

    /** `new_allocator`: one free block. */
    constructor (addr: nat, size: nat)
      requires 0 < addr && 64 <= size && addr + size < 0x1_0000_0000_0000_0000
      ensures Valid() && this.addr == addr && this.size == size && blocks == [Block(size - 32, false)]
    {
      this.addr, this.size, first := addr, size, addr;
      mem := map[addr := HeapNode(size - 32, FREE, 0, 0)];
      blocks := [Block(size - 32, false)];
      FirstHeader(map[], addr, size);
    }

    /** Writes the status of block `i`. */
    method Mark(node: nat, used: bool, ghost i: nat)
      requires Shape() && i < |blocks| && node == NodeAt(addr, blocks, i)
      modifies this`mem, this`blocks
      ensures Shape() && blocks == old(blocks)[i := Block(old(blocks)[i].size, used)]
      ensures Starts(addr, blocks) == Starts(addr, old(blocks))
      ensures OnlyIn(old(mem), mem, Elements(Starts(addr, old(blocks))))
    {
      MarkHolds(mem, addr, blocks, i, used);
      MarkedStarts(addr, blocks, i, used);
      assert Starts(addr, blocks)[i] == node && node in Starts(addr, blocks);
      mem := mem[node := mem[node].(status := if used then USED else FREE)];
      blocks := blocks[i := Block(blocks[i].size, used)];
    }

    /** The writes of a split, field by field. */
    method SplitHeaders(cur: nat, size: nat)
      requires cur in mem && mem[cur].size >= size + 32 && (mem[cur].next != 0 ==> mem[cur].next in mem)
      modifies this`mem
      ensures mem == SplitMem(old(mem), cur, size)
    {
      var newNode := cur + size + 32;
      mem := mem[newNode := HeapNode(mem[cur].size - size - 32, FREE, cur, mem[cur].next)];
      if mem[cur].next != 0 {
        mem := mem[mem[cur].next := mem[mem[cur].next].(prev := newNode)];
      }
      mem := mem[cur := mem[cur].(next := newNode)];
      mem := mem[cur := mem[cur].(status := USED)];
      mem := mem[cur := mem[cur].(size := size)];
      assert mem == SplitMem(old(mem), cur, size);
    }

    /** The split of `alloc`. */
    method Split(cur: nat, size: nat, ghost i: nat)
      requires Shape() && i < |blocks| && cur == NodeAt(addr, blocks, i)
      requires Fits(blocks[i], size) && blocks[i].size != size
      modifies this`mem, this`blocks
      ensures Shape() && blocks == TakeAt(old(blocks), i, size)
      ensures OnlyIn(old(mem), mem, HeaderPlaces(addr, old(blocks), blocks))
    {
      ghost var at := Starts(addr, blocks);
      assert at[i] == cur;
      SplitHolds(mem, addr, blocks, i, size, at);
      SplitOnlyHeaders(mem, addr, blocks, i, size, at);
      SplitHeaders(cur, size);
      blocks := TakeAt(blocks, i, size);
    }

    /** The writes of a merge, field by field. */
    method MergeHeaders(node: nat)
      requires node in mem && mem[node].next in mem
      requires mem[mem[node].next].next != 0 ==> mem[mem[node].next].next in mem
      modifies this`mem
      ensures mem == MergeMem(old(mem), node)
    {
      var behind := mem[node].next;
      mem := mem[node := mem[node].(size := mem[node].size + mem[behind].size + 32)];
      mem := mem[node := mem[node].(next := mem[behind].next)];
      if mem[node].next != 0 {
        mem := mem[mem[node].next := mem[mem[node].next].(prev := node)];
      }
      assert mem == MergeMem(old(mem), node);
    }

    /** One of the merges of `free`: `node` takes in the node behind it. */
    method Absorb(node: nat, ghost k: nat)
      requires Shape() && k + 1 < |blocks| && node == NodeAt(addr, blocks, k) && !blocks[k].used && !blocks[k + 1].used
      modifies this`mem, this`blocks
      ensures Shape() && blocks == Merge(old(blocks), k)
      ensures Elements(Starts(addr, blocks)) <= Elements(Starts(addr, old(blocks)))
      ensures OnlyIn(old(mem), mem, Elements(Starts(addr, old(blocks))))
    {
      ghost var at := Starts(addr, blocks);
      assert at[k] == node;
      MergeHolds(mem, addr, blocks, k);
      MergeOnlyHeaders(mem, addr, blocks, k, at);
      StartsAfterMerge(addr, blocks, k);
      DropIsPart(at, k + 1);
      MergeElements(blocks, k);
      HeaderIs(mem, addr, blocks, k);
      HeaderIs(mem, addr, blocks, k + 1);
      if k + 2 < |blocks| {
        HeaderIs(mem, addr, blocks, k + 2);
      }
      MergeHeaders(node);
      blocks := Merge(blocks, k);
    }

    /** `alloc`: the payload of the first block that fits, or 0. */
    method Alloc(request: nat) returns (ptr: nat)
      requires Valid() && request < 0x1_0000_0000_0000_0000 && Unwrapped(blocks, Rounded(request))
      modifies this`mem, this`blocks
      ensures Valid() && OnlyIn(old(mem), mem, HeaderPlaces(addr, old(blocks), blocks))
      ensures var i := FirstFit(old(blocks), Rounded(request));
        if i < |old(blocks)| then
          blocks == TakeAt(old(blocks), i, Rounded(request)) && ptr == PayloadAt(addr, old(blocks), i)
        else blocks == old(blocks) && ptr == 0
      ensures ptr != 0 ==>
        && ptr !in Live(addr, old(blocks))
        && Live(addr, blocks) == Live(addr, old(blocks))[ptr := if request < 32 then 32 else request]
      ensures var size := if request < 32 then 32 else request;
        ptr == 0 <==> forall b | b in old(blocks) :: b.used || (b.size != size && b.size < size + 64)
    {
      ghost var before := blocks;
      ptr := TakeFirst(request);
      ghost var i := FirstFit(before, Rounded(request));
      if i < |before| {
        TakeAddsPayload(addr, before, i, Rounded(request));
        assert before[i] in before;
      } else {
        forall b | b in before ensures !Fits(b, Rounded(request)) {
          var j :| 0 <= j < |before| && before[j] == b;
        }
      }
    }

    /** The search of `alloc`. */
    method TakeFirst(request: nat) returns (ptr: nat)
      requires Valid() && request < 0x1_0000_0000_0000_0000 && Unwrapped(blocks, Rounded(request))
      modifies this`mem, this`blocks
      ensures Valid() && OnlyIn(old(mem), mem, HeaderPlaces(addr, old(blocks), blocks))
      ensures var i := FirstFit(old(blocks), Rounded(request));
        if i < |old(blocks)| then
          blocks == TakeAt(old(blocks), i, Rounded(request)) && ptr == PayloadAt(addr, old(blocks), i)
        else blocks == old(blocks) && ptr == 0
    {
      var size := if request < 0x20 then 0x20 else request;
      CodedTestExactlyWhen(blocks, size);
      var cur := first;
      ghost var i := 0;
      assert blocks[..0] == [];
      while cur != 0
        invariant 0 <= i <= |blocks| && Valid() && blocks == old(blocks) && mem == old(mem)
        invariant cur == if i < |blocks| then NodeAt(addr, blocks, i) else 0
        invariant forall j | 0 <= j < i :: !Fits(blocks[j], size)
        decreases |blocks| - i
      {
        HeaderIs(mem, addr, blocks, i);
        assert blocks[i] in blocks;
        if mem[cur].size == size && mem[cur].status == FREE {
          FirstFitIs(blocks, size, i);
          TakeExact(cur, size, i);
          return cur + 32;
        }
        if mem[cur].size >= (size + 64) % 0x1_0000_0000_0000_0000 && mem[cur].status == FREE {
          FirstFitIs(blocks, size, i);
          TakeKeeps(blocks, i, size, this.size);
          Split(cur, size, i);
          return cur + 32;
        }
        cur := mem[cur].next;
        i := i + 1;
      }
      FirstFitIs(blocks, size, i);
      return 0;
    }

    method TakeExact(cur: nat, size: nat, ghost i: nat)
      requires Valid() && i < |blocks| && cur == NodeAt(addr, blocks, i) && !blocks[i].used && blocks[i].size == size
      modifies this`mem, this`blocks
      ensures Valid() && blocks == TakeAt(old(blocks), i, size)
      ensures OnlyIn(old(mem), mem, HeaderPlaces(addr, old(blocks), blocks))
    {
      TakeKeeps(blocks, i, size, this.size);
      assert blocks[i := Block(size, true)] == TakeAt(blocks, i, size);
      Mark(cur, true, i);
    }

    /** The first merge of `free`: gives the node that block `i` is now part of. */
    method MergePrev(node: nat, prev: nat, ghost next: nat, ghost i: nat) returns (merged: nat, ghost k: nat)
      requires Shape() && i < |blocks| && node == NodeAt(addr, blocks, i) && !blocks[i].used
      requires prev == if i == 0 then 0 else NodeAt(addr, blocks, i - 1)
      requires next == if i + 1 < |blocks| then NodeAt(addr, blocks, i + 1) else 0
      modifies this`mem, this`blocks
      ensures Shape()
      ensures k == if i > 0 && !old(blocks)[i - 1].used then i - 1 else i
      ensures blocks == if i > 0 && !old(blocks)[i - 1].used then Merge(old(blocks), i - 1) else old(blocks)
      ensures k < |blocks| && !blocks[k].used && merged == NodeAt(addr, blocks, k)
      ensures next == if k + 1 < |blocks| then NodeAt(addr, blocks, k + 1) else 0
      ensures Elements(Starts(addr, blocks)) <= Elements(Starts(addr, old(blocks)))
      ensures OnlyIn(old(mem), mem, Elements(Starts(addr, old(blocks))))
    {
      if i > 0 {
        HeaderIs(mem, addr, blocks, i - 1);
      }
      if prev != 0 && mem[prev].status == FREE {
        NodesAfterMerge(addr, blocks, i - 1, i - 1);
        NodesAfterMerge(addr, blocks, i - 1, i);
        MergeElements(blocks, i - 1);
        Absorb(prev, i - 1);
        return prev, i - 1;
      }
      return node, i;
    }

    /** Frees block `i`, known to be in use. */
    method Release(node: nat, ghost i: nat)
      requires Valid() && i < |blocks| && node == NodeAt(addr, blocks, i) && blocks[i].used
      modifies this`mem, this`blocks
      ensures Valid() && blocks == FreeAt(old(blocks), i)
      ensures OnlyIn(old(mem), mem, Elements(Starts(addr, old(blocks))))
    {
      FreeKeeps(blocks, i, size);
      Mark(node, false, i);
      HeaderIs(mem, addr, blocks, i);
      var prev, next := mem[node].prev, mem[node].next;
      var merged;
      ghost var k;
      merged, k := MergePrev(node, prev, next, i);
      MergeNext(merged, next, k);
    }

    /** The second merge of `free`. */
    method MergeNext(node: nat, next: nat, ghost k: nat)
      requires Shape() && k < |blocks| && node == NodeAt(addr, blocks, k) && !blocks[k].used
      requires next == if k + 1 < |blocks| then NodeAt(addr, blocks, k + 1) else 0
      modifies this`mem, this`blocks
      ensures Shape()
      ensures blocks == if k + 1 < |old(blocks)| && !old(blocks)[k + 1].used then Merge(old(blocks), k) else old(blocks)
      ensures OnlyIn(old(mem), mem, Elements(Starts(addr, old(blocks))))
    {
      if k + 1 < |blocks| {
        HeaderIs(mem, addr, blocks, k + 1);
      }
      if next != 0 && mem[next].status == FREE {
        Absorb(node, k);
      }
    }

    /**
      `free`: null pointers, pointers outside the heap and blocks already free are
      ignored; other pointers are taken to be payloads.
     */
    method Free(ptr: nat, ghost i: nat)
      requires Valid()
      requires addr <= ptr < addr + size ==> PayloadOf(addr, blocks, i, ptr)
      modifies this`mem, this`blocks
      ensures Valid() && OnlyIn(old(mem), mem, HeaderPlaces(addr, old(blocks), blocks))
      ensures if addr <= ptr < addr + size && old(blocks)[i].used then blocks == FreeAt(old(blocks), i)
              else blocks == old(blocks) && mem == old(mem)
      ensures ptr in Live(addr, old(blocks)) ==> Live(addr, blocks) == Live(addr, old(blocks)) - {ptr}
      ensures ptr !in Live(addr, old(blocks)) ==> blocks == old(blocks) && mem == old(mem)
    {
      LiveInside(addr, blocks, ptr);
      if addr <= ptr < addr + size {
        LiveBlock(addr, blocks, i);
        if blocks[i].used {
          FreeDropsPayload(addr, blocks, i);
        }
      }
      if ptr == 0 || ptr < addr || ptr >= addr + size {
        return;
      }
      var node := ptr - 32;
      HeaderIs(mem, addr, blocks, i);
      if mem[node].status == FREE {
        return;
      }
      Release(node, i);
    }
  }
}
