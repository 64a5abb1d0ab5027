/**
  How many pages the bitmap allocator keeps at the start of a memory area for its
  own header and bitmap.  The kernel finds the number with a do-while loop that
  looks for a fixed point of `Step`; this module shows for which areas that loop
  ends, and what the value it ends with guarantees.
 */
module HeaderPages {

  /** Bytes of an area before its bitmap starts. */
  const DATA_OFFSET := 24

  function BitmapBytes(pages: nat): nat {
    (pages + 7) / 8
  }

  /**
    One turn of the loop: the header pages needed when `header` pages are already
    set aside.  The source's extra test for a result of zero never fires, because
    the 24 bytes before the bitmap already need a page.
   */
  function Step(total: nat, header: nat): nat
    requires header <= total
  {
    var needed := DATA_OFFSET + BitmapBytes(total - header);
    (needed + 0x1000 - 1) / 0x1000
  }

  /** The value of `header_pages` after `turns` turns of the loop, which starts from 1. */
  function Iterate(total: nat, turns: nat): (h: nat)
    requires 2 <= total
    ensures 1 <= h < total
  {
    if turns == 0 then 1 else
      var h := Iterate(total, turns - 1);
      StepIsCeiling(total, h);
      Step(total, h)
  }

  /** The loop leaves after turn `turns + 1` exactly when that turn changed nothing. */
  ghost predicate StopsAfter(total: nat, turns: nat)
    requires 2 <= total
  {
    Iterate(total, turns + 1) == Iterate(total, turns)
  }

  predicate Converges(total: nat) {
    (total + 192) % 32769 != 1
  }

  /** The fixed point, when there is one. */
  function FixedPoint(total: nat): nat {
    (total + 192 + 32768) / 32769
  }

  lemma StepIsCeiling(total: nat, header: nat)
    requires header <= total
    ensures Step(total, header) == (total - header + 192 + 32767) / 32768
    ensures 2 <= total && 1 <= header ==> 1 <= Step(total, header) < total
  {
    var m := total - header;
    var b := (m + 7) / 8;
    assert (b + 24 + 4095) / 4096 == (8 * b + 192 + 32767) / 32768;
    assert m <= 8 * b < m + 8;
    CeilingUnchanged(m, b);
  }

  /** Rounding up to whole bytes first does not change the number of whole pages. */
  lemma CeilingUnchanged(m: nat, b: nat)
    requires m <= 8 * b < m + 8
    ensures (8 * b + 192 + 32767) / 32768 == (m + 192 + 32767) / 32768
  {
    var q := (m + 192 + 32767) / 32768;
    assert 32768 * (q - 1) < m + 192 <= 32768 * q;
    assert 4096 * (q - 1) < b + 24 <= 4096 * q;
  }

  /** A fixed point exists exactly for the totals in `Converges`, and then it is unique. */
  lemma FixedPoints(total: nat, header: nat)
    requires 1 <= header <= total
    ensures Step(total, header) == header <==> Converges(total) && header == FixedPoint(total)
  {
    StepIsCeiling(total, header);
    var n := total + 192;
    var q := n / 32769;
    assert n == 32769 * q + n % 32769;
    assert Step(total, header) == header <==> 32768 * (header - 1) < n - header <= 32768 * header;
    assert Step(total, header) == header <==> 32769 * (header - 1) + 1 < n <= 32769 * header;
  }

  /** Larger headers need no more pages, and a distance of d shrinks to at most ceil(d / 32768). */
  lemma StepContracts(total: nat, a: nat, b: nat)
    requires a <= b <= total
    ensures Step(total, b) <= Step(total, a) <= Step(total, b) + (b - a + 32767) / 32768
  {
    StepIsCeiling(total, a);
    StepIsCeiling(total, b);
  }

  /** How far the loop is from its end; strictly smaller with every turn. */
  function Distance(total: nat, header: nat): nat
    requires header <= total
  {
    var fix := FixedPoint(total);
    if header == fix then 0
    else if Step(total, header) == fix then 1
    else if header < fix then fix - header + 2
    else header - fix + 2
  }

  lemma FixedPointInRange(total: nat)
    requires 2 <= total
    ensures 1 <= FixedPoint(total) < total
  {}

  lemma DistanceShrinks(total: nat, header: nat)
    requires 2 <= total && Converges(total) && 1 <= header < total && header != FixedPoint(total)
    ensures 1 <= Step(total, header) < total
    ensures Distance(total, Step(total, header)) < Distance(total, header)
  {
    var fix := FixedPoint(total);
    var next := Step(total, header);
    FixedPointInRange(total);
    FixedPoints(total, fix);
    StepIsCeiling(total, header);
    StepIsCeiling(total, next);
    StepIsCeiling(total, fix);
    if header < fix {
      StepContracts(total, header, fix);
    } else {
      StepContracts(total, fix, header);
    }
  }

  /** The loop of the source.  Without `Converges` it would never leave. */
  method CalcHeaderPages(total: nat) returns (header: nat)
    requires 2 <= total && Converges(total)
    ensures header == FixedPoint(total)
    ensures 1 <= header < total
    ensures DATA_OFFSET + BitmapBytes(total - header) <= header * 0x1000
    ensures 24 + (total - header + 7) / 8 <= header * 0x1000
  {
    FixedPointInRange(total);
    header := 1;
    var prev := 1;
    FixedPoints(total, prev);
    StepIsCeiling(total, prev);
    header := Step(total, prev);
    while header != prev
      invariant 1 <= prev < total && header == Step(total, prev)
      invariant 1 <= header < total
      invariant header == prev <==> prev == FixedPoint(total)
      decreases Distance(total, prev)
    {
      DistanceShrinks(total, prev);
      prev := header;
      FixedPoints(total, prev);
      StepIsCeiling(total, prev);
      header := Step(total, prev);
    }
  }

  /** What the fixed point guarantees: the header fits in it and in nothing smaller. */
  lemma LeastThatFits(total: nat, smaller: nat)
    requires 2 <= total && Converges(total)
    ensures 24 + (total - FixedPoint(total) + 7) / 8 <= FixedPoint(total) * 0x1000
    ensures smaller < FixedPoint(total) ==> 24 + (total - smaller + 7) / 8 > smaller * 0x1000
  {
    FixedPoints(total, FixedPoint(total));
    if smaller < FixedPoint(total) {
      StepContracts(total, smaller, FixedPoint(total));
    }
  }

  /** The loop stops after some turn exactly when the area's size is in `Converges`. */
  lemma StopsExactlyWhen(total: nat)
    requires 2 <= total
    ensures (exists turns: nat :: StopsAfter(total, turns)) <==> Converges(total)
  {
    if Converges(total) {
      var turns := ReachFixedPoint(total, 0);
      assert StopsAfter(total, turns);
    } else {
      forall turns: nat ensures !StopsAfter(total, turns) {
        FixedPoints(total, Iterate(total, turns));
      }
    }
  }

  lemma {:induction false} ReachFixedPoint(total: nat, from: nat) returns (turns: nat)
    requires 2 <= total && Converges(total)
    ensures from <= turns && Iterate(total, turns) == FixedPoint(total)
    ensures StopsAfter(total, turns)
    decreases Distance(total, Iterate(total, from))
  {
    var h := Iterate(total, from);
    FixedPoints(total, h);
    if h == FixedPoint(total) {
      turns := from;
    } else {
      DistanceShrinks(total, h);
      turns := ReachFixedPoint(total, from + 1);
    }
  }

  /**
    When there is no fixed point the loop ends up going to and fro between two
    consecutive values for ever.
   */
  lemma Alternates(total: nat) returns (start: nat)
    requires 2 <= total && !Converges(total)
    ensures forall k: nat :: start <= k ==>
      Iterate(total, k) == (total + 192) / 32769 + (if (k - start) % 2 == 0 then 1 else 0)
  {
    start := ReachUpperValue(total, 0);
    forall k: nat | start <= k
      ensures Iterate(total, k) == (total + 192) / 32769 + (if (k - start) % 2 == 0 then 1 else 0)
    {
      AlternatesFrom(total, start, k);
    }
  }

  /** Without a fixed point the two values around the quotient exchange places. */
  lemma TwoCycle(total: nat)
    requires 2 <= total && !Converges(total)
    ensures var q := (total + 192) / 32769;
      1 <= q && q + 1 < total && Step(total, q) == q + 1 && Step(total, q + 1) == q
  {
    var q := (total + 192) / 32769;
    assert total + 192 == 32769 * q + 1;
    StepIsCeiling(total, q);
    StepIsCeiling(total, q + 1);
  }

  lemma {:induction false} AlternatesFrom(total: nat, start: nat, k: nat)
    requires 2 <= total && !Converges(total) && start <= k
    requires Iterate(total, start) == (total + 192) / 32769 + 1
    ensures Iterate(total, k) == (total + 192) / 32769 + (if (k - start) % 2 == 0 then 1 else 0)
  {
    TwoCycle(total);
    if start < k {
      AlternatesFrom(total, start, k - 1);
    }
  }

  lemma {:induction false} ReachUpperValue(total: nat, from: nat) returns (turns: nat)
    requires 2 <= total && !Converges(total)
    ensures Iterate(total, turns) == (total + 192) / 32769 + 1
    decreases Gap(total, Iterate(total, from))
  {
    TwoCycle(total);
    var q := (total + 192) / 32769;
    var h := Iterate(total, from);
    if h == q + 1 {
      turns := from;
    } else {
      GapShrinks(total, h);
      turns := ReachUpperValue(total, from + 1);
    }
  }

  function Gap(total: nat, header: nat): nat {
    var q := (total + 192) / 32769;
    if header == q + 1 then 0 else if header <= q then 2 * (q - header) + 1 else 2 * (header - q) + 2
  }

  lemma GapShrinks(total: nat, header: nat)
    requires 2 <= total && !Converges(total) && 1 <= header < total
    requires header != (total + 192) / 32769 + 1
    ensures Gap(total, Step(total, header)) < Gap(total, header)
  {
    var q := (total + 192) / 32769;
    TwoCycle(total);
    StepIsCeiling(total, header);
    if header <= q {
      StepContracts(total, header, q);
    } else {
      StepContracts(total, q + 1, header);
    }
  }

  /** The smallest area the loop never finishes with, of 127 MiB and some: 32578 pages. */
  lemma NeverStops()
    ensures forall turns: nat :: !StopsAfter(32578, turns)
    ensures forall total: nat | 2 <= total < 32578 :: Converges(total)
  {
    StopsExactlyWhen(32578);
  }
}
