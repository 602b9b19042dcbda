/**
 * Finite sums over sequences, used for kernel accumulation and histogram
 * totals.
 */
module Sums {

  function Sum(s: seq<int>): int {
    if |s| == 0 then 0 else s[0] + Sum(s[1..])
  }

  function SumReal(s: seq<real>): real {
    if |s| == 0 then 0.0 else s[0] + SumReal(s[1..])
  }

  lemma {:induction false} SumOfZeros(s: seq<int>)
    requires forall i :: 0 <= i < |s| ==> s[i] == 0
    ensures Sum(s) == 0
  {
    if |s| > 0 {
      SumOfZeros(s[1..]);
    }
  }

  /** Adding one to a single entry adds one to the sum. */
  lemma {:induction false} SumIncrement(s: seq<int>, k: nat)
    requires k < |s|
    ensures Sum(s[k := s[k] + 1]) == Sum(s) + 1
  {
    if k > 0 {
      assert s[k := s[k] + 1][1..] == s[1..][k - 1 := s[1..][k - 1] + 1];
      SumIncrement(s[1..], k - 1);
    } else {
      assert s[k := s[k] + 1][1..] == s[1..];
    }
  }

  /** Scaling every term scales the sum. */
  lemma {:induction false} SumRealScale(s: seq<real>, t: seq<real>, v: real)
    requires |s| == |t|
    requires forall i :: 0 <= i < |s| ==> t[i] == v * s[i]
    ensures SumReal(t) == v * SumReal(s)
  {
    if |s| > 0 {
      SumRealScale(s[1..], t[1..], v);
    }
  }
}
