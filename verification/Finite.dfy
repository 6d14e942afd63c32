/** Sizes of finite sets. */
module Finite {

  lemma {:induction false} SubsetIsNotLarger<T>(a: set<T>, b: set<T>)
    requires a <= b
    ensures |a| <= |b|
  {
    if a != {} {
      var x :| x in a;
      SubsetIsNotLarger(a - {x}, b - {x});
    }
  }

  /** The numbers below `k`. */
  function UpTo(k: nat): (s: set<nat>)
    ensures |s| == k && forall i :: i in s ==> i < k
  {
    if k == 0 then {} else UpTo(k - 1) + {k - 1}
  }

  lemma {:induction false} InUpTo(k: nat, i: nat)
    ensures i in UpTo(k) <==> i < k
  {
    if k > 0 {
      InUpTo(k - 1, i);
    }
  }
}
