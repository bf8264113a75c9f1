/** Facts about finite sets: cardinality of subsets, and order-independent sums. */
module Sets {

  /** A subset is no larger than its superset, and equally large only when equal. */
  lemma SubsetCard<T>(a: set<T>, b: set<T>)
    requires a <= b
    ensures |a| <= |b|
    ensures |a| == |b| ==> a == b
  {
    assert b == a + (b - a);
    assert |b| == |a| + |b - a|;
    if |a| == |b| {
      assert |b - a| == 0;
      assert b - a == {};
    }
  }

  /** A set with at most one element has no two distinct members. */
  lemma AtMostOneElement<T>(s: set<T>, a: T, b: T)
    requires |s| <= 1 && a in s && b in s
    ensures a == b
  {
    if a != b {
      SubsetCard({a, b}, s);
    }
  }

  /** The sum of `f` over the finite set `s`, taken in an arbitrary order. */
  ghost function SumOver<T>(f: T -> int, s: set<T>): int
    decreases s
  {
    if s == {} then 0
    else
      var x :| x in s;
      f(x) + SumOver(f, s - {x})
  }

  /** Any element can be taken out of the sum first: the order does not matter. */
  lemma {:induction false} SumOverRemove<T>(f: T -> int, s: set<T>, y: T)
    requires y in s
    ensures SumOver(f, s) == f(y) + SumOver(f, s - {y})
    decreases s
  {
    var x :| x in s && SumOver(f, s) == f(x) + SumOver(f, s - {x});
    if x != y {
      SumOverRemove(f, s - {x}, y);
      SumOverRemove(f, s - {y}, x);
      assert s - {x} - {y} == s - {y} - {x};
    }
  }

  /** Adding a new element adds its value to the sum. */
  lemma SumOverAdd<T>(f: T -> int, s: set<T>, y: T)
    requires y !in s
    ensures SumOver(f, s + {y}) == SumOver(f, s) + f(y)
  {
    SumOverRemove(f, s + {y}, y);
    assert s + {y} - {y} == s;
  }
}
