/** Sizes of finite sets. */
module FiniteSets {
  /** The `n` numbers from `lo` on. */
  function Range(lo: nat, n: nat): (r: set<nat>)
    ensures |r| == n && forall i: nat :: i in r <==> lo <= i < lo + n
  {
    if n == 0 then {} else Range(lo, n - 1) + {lo + n - 1}
  }

  lemma RangeIs(lo: nat, n: nat)
    ensures |Range(lo, n)| == n && forall i: nat :: i in Range(lo, n) <==> lo <= i < lo + n
  {
  }

  lemma {:induction false} SubsetSize<T>(a: set<T>, b: set<T>)
    requires a <= b
    ensures |a| <= |b| && (|a| == |b| ==> a == b)
    decreases a
  {
    if a != {} {
      var x :| x in a;
      SubsetSize(a - {x}, b - {x});
    }
  }

  lemma Bounded(s: set<nat>, n: nat)
    requires forall x :: x in s ==> x < n
    ensures |s| <= n
  {
    SubsetSize(s, Range(0, n));
  }
}
