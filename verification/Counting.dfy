/** Cardinality facts used by the reference-count proofs. */
module Counting {

  lemma {:induction false} BoundedSet(s: set<int>, lo: int, hi: int)
    requires lo <= hi && forall k :: k in s ==> lo <= k < hi
    ensures |s| <= hi - lo
    decreases hi - lo
  {
    if lo == hi {
      assert s == {};
    } else {
      BoundedSet(s - {hi - 1}, lo, hi - 1);
      assert |s| <= |s - {hi - 1}| + 1 by {
        assert s <= (s - {hi - 1}) + {hi - 1};
        SubsetSize(s, (s - {hi - 1}) + {hi - 1});
      }
    }
  }

  lemma SubsetSize<T>(a: set<T>, b: set<T>)
    requires a <= b
    ensures |a| <= |b|
  {
    assert b == a + (b - a);
  }

  /** A set indexed injectively by integers in lo..hi has at most hi - lo elements. */
  lemma {:induction false} Pigeonhole<T>(s: set<T>, f: T -> int, lo: int, hi: int)
    requires lo <= hi
    requires forall x :: x in s ==> lo <= f(x) < hi
    requires forall x, y :: x in s && y in s && f(x) == f(y) ==> x == y
    ensures |s| <= hi - lo
    decreases hi - lo
  {
    if lo == hi {
      assert s == {};
    } else if x :| x in s && f(x) == hi - 1 {
      Pigeonhole(s - {x}, f, lo, hi - 1);
    } else {
      Pigeonhole(s, f, lo, hi - 1);
    }
  }
}
