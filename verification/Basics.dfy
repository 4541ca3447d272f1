/** What several components use: a value that may be missing, and the sizes of finite sets of numbers. */
module Basics {

  datatype Option<T> = None | Some(value: T)

  /** The numbers below n. */
  function Numbers(n: nat): (all: set<nat>)
    ensures |all| == n && forall k: nat :: k in all <==> k < n
  {
    if n == 0 then {} else Numbers(n - 1) + {n - 1}
  }

  lemma {:induction false} SubsetSmaller(a: set<nat>, b: set<nat>)
    requires a <= b
    ensures |a| <= |b|
    decreases |a|
  {
    if a != {} {
      var e :| e in a;
      SubsetSmaller(a - {e}, b - {e});
    }
  }
}
