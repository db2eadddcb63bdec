/** Facts about finite sets. */
module Sets {

  ghost function Pick<T>(s: set<T>): (x: T)
    requires s != {}
    ensures x in s
  {
    var x :| x in s; x
  }

  lemma SameSet(a: set<int>, b: set<int>)
    requires forall x :: x in a <==> x in b
    ensures a == b
  {
    if a - b != {} {
      var x := Pick(a - b);
      assert false;
    }
    if b - a != {} {
      var x := Pick(b - a);
      assert false;
    }
    assert a == b - (b - a) + (a - b);
  }

  lemma SmallerSet<T>(a: set<T>, b: set<T>)
    requires a <= b
    ensures |a| <= |b|
  {
    assert b == a + (b - a);
  }

  predicate Between(x: int, first: int, n: nat) {
    first <= x < first + n
  }

  ghost function Range(first: int, n: nat): set<int> {
    set x | first <= x < first + n && Between(x, first, n)
  }

  lemma {:induction false} RangeSize(first: int, n: nat)
    ensures |Range(first, n)| == n
  {
    if n == 0 {
      assert Range(first, 0) == {};
    } else {
      RangeSize(first, n - 1);
      assert Range(first, n) == Range(first, n - 1) + {first + n - 1};
    }
  }
}
