/** Small vocabulary shared by every module. */
module Prelude {

  datatype Option<+T> = None | Some(value: T)

  /** The position of the first element satisfying `p`, or -1 (Go's slices.IndexFunc). */
  function FirstIndex<T>(s: seq<T>, p: T -> bool): (i: int)
    ensures -1 <= i < |s|
    ensures i >= 0 ==> p(s[i]) && forall k | 0 <= k < i :: !p(s[k])
    ensures i == -1 ==> forall k | 0 <= k < |s| :: !p(s[k])
  {
    if s == [] then -1
    else if p(s[0]) then 0
    else
      var i := FirstIndex(s[1..], p);
      if i == -1 then -1 else i + 1
  }

  function Map<T, U>(f: T -> U, s: seq<T>): (r: seq<U>)
    ensures |r| == |s|
    ensures forall i | 0 <= i < |s| :: r[i] == f(s[i])
  {
    seq(|s|, i requires 0 <= i < |s| => f(s[i]))
  }

  lemma MapAppend<T, U>(f: T -> U, s: seq<T>, t: seq<T>)
    ensures Map(f, s + t) == Map(f, s) + Map(f, t)
  {
  }

  predicate Onward(p: nat -> bool, k: nat) { p(k) ==> p(k + 1) }

  /** Induction, for steps whose proof does not want to see the whole. */
  lemma {:induction false} StepByStep(p: nat -> bool, n: nat)
    requires p(0) && forall k: nat | k < n :: Onward(p, k)
    ensures p(n)
  {
    if n > 0 {
      StepByStep(p, n - 1);
      assert Onward(p, n - 1);
    }
  }
}
