/** Sums of integer sequences, shared by the max-flow engines and the two segment trees. */
module Sums {

  function Sum(s: seq<int>): int {
    if |s| == 0 then 0 else Sum(s[..|s| - 1]) + s[|s| - 1]
  }

  /** Replacing one entry changes the sum by the difference. */
  lemma {:induction false} SumUpdate(s: seq<int>, i: int, x: int)
    requires 0 <= i < |s|
    ensures Sum(s[i := x]) == Sum(s) - s[i] + x
  {
    var last := |s| - 1;
    if i < last {
      assert s[i := x][..last] == s[..last][i := x];
      SumUpdate(s[..last], i, x);
    } else {
      assert s[i := x][..last] == s[..last];
    }
  }

  lemma {:induction false} SumNonNegative(s: seq<int>)
    requires forall i :: 0 <= i < |s| ==> s[i] >= 0
    ensures Sum(s) >= 0
  {
    if |s| > 0 {
      SumNonNegative(s[..|s| - 1]);
    }
  }

  /** The sum of a concatenation is the sum of its parts. */
  lemma {:induction false} SumConcat(a: seq<int>, b: seq<int>)
    ensures Sum(a + b) == Sum(a) + Sum(b)
  {
    if |b| > 0 {
      assert (a + b)[..|a + b| - 1] == a + b[..|b| - 1];
      SumConcat(a, b[..|b| - 1]);
    } else {
      assert a + b == a;
    }
  }
}
