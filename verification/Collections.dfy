/** Sequences without repeats and their sets of elements. */
module Collections {

  ghost predicate NoRepeats<T>(q: seq<T>) {
    forall i, j | 0 <= i < j < |q| :: q[i] != q[j]
  }

  ghost function Elements<T>(q: seq<T>): set<T> {
    set x | x in q :: x
  }

  lemma {:induction false} QueueSize<T>(q: seq<T>)
    requires NoRepeats(q)
    ensures |Elements(q)| == |q|
  {
    if q != [] {
      var front, last := q[..|q| - 1], q[|q| - 1];
      QueueSize(front);
      assert q == front + [last];
      forall x ensures x in Elements(q) <==> x in Elements(front) + {last} {
        assert x in q <==> x in front + [last];
      }
      assert last !in front;
      assert Elements(q) == Elements(front) + {last};
    }
  }

  ghost function One(b: bool): nat {
    if b then 1 else 0
  }

  lemma AtMostOne<T>(x: set<T>, p: T, q: T)
    requires |x| <= 1 && p in x && q in x
    ensures p == q
  {
    assert |x - {p}| == |x| - 1;
  }

  /** Two sets that agree but for `p` differ in size by whether it is in them. */
  lemma WithOrWithout<T>(x: set<T>, y: set<T>, p: T)
    requires forall q | q != p :: q in x <==> q in y
    ensures |x| - One(p in x) == |y| - One(p in y)
  {
    assert x - {p} == y - {p};
    assert x == (x - {p}) + (if p in x then {p} else {});
    assert y == (y - {p}) + (if p in y then {p} else {});
  }

  lemma InsertFront<T>(x: T, q: seq<T>)
    requires NoRepeats(q) && x !in q
    ensures NoRepeats([x] + q)
  {}
}
