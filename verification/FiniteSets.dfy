/** Counting in sets of natural numbers. */
module FiniteSets {
  /** A set of numbers below `n` has at most `n` members, and exactly `n` when it
      has them all. */
  lemma {:induction false} Pigeonhole(xs: set<nat>, n: nat)
    requires forall x :: x in xs ==> x < n
    ensures |xs| <= n
    ensures |xs| == n <==> forall x: nat :: x < n ==> x in xs
  {
    if n == 0 {
      assert xs == {};
    } else {
      Pigeonhole(xs - {n - 1}, n - 1);
      if n - 1 in xs {
        assert |xs| == |xs - {n - 1}| + 1;
        assert forall x: nat :: x < n ==> (x in xs <==> x == n - 1 || x in xs - {n - 1});
      } else {
        assert xs - {n - 1} == xs;
      }
    }
  }

  function Below(n: nat): (xs: set<nat>)
    ensures forall x: nat :: x in xs <==> x < n
  {
    if n == 0 then {} else Below(n - 1) + {n - 1}
  }

  lemma SubsetSize<T>(a: set<T>, b: set<T>)
    requires a <= b
    ensures |a| <= |b|
  {
    assert b == a + (b - a);
  }
}
