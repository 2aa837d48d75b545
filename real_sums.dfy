/** Sums and integer powers over `real`, shared by the finance and estimation calculators. */
module RealSums {

  /** Python's `sum(s)`: adds the elements left to right, starting from 0. */
  function Sum(s: seq<real>): real
  {
    if s == [] then 0.0 else Sum(s[..|s| - 1]) + s[|s| - 1]
  }

  /** `x ** n` for a natural exponent; `0.0 ** 0 == 1.0` as in Python. */
  function Pow(x: real, n: nat): real
  {
    if n == 0 then 1.0 else x * Pow(x, n - 1)
  }

  /** The sum may equally be taken from the front. */
  lemma {:induction false} SumFront(s: seq<real>)
    requires s != []
    ensures Sum(s) == s[0] + Sum(s[1..])
  {
    if |s| > 1 {
      SumFront(s[..|s| - 1]);
      assert s[..|s| - 1][1..] == s[1..][..|s[1..]| - 1];
    }
  }

  /** A power is zero only when its base is zero and the exponent positive. */
  lemma {:induction false} PowZero(x: real, n: nat)
    ensures Pow(x, n) == 0.0 <==> x == 0.0 && n > 0
  {
    if n > 0 {
      PowZero(x, n - 1);
    }
  }

  /** Any power of one is one. */
  lemma {:induction false} PowOne(n: nat)
    ensures Pow(1.0, n) == 1.0
  {
    if n > 0 {
      PowOne(n - 1);
    }
  }

  /** Bounds on the sum: |s| copies of a lower bound and of an upper bound. */
  lemma {:induction false} SumBounds(s: seq<real>, lo: real, hi: real)
    requires forall i :: 0 <= i < |s| ==> lo <= s[i] <= hi
    ensures |s| as real * lo <= Sum(s) <= |s| as real * hi
  {
    if s != [] {
      SumBounds(s[..|s| - 1], lo, hi);
    }
  }
}
