/** Discounted cash flows: the sum `Σ cf_t / (1 + rate) ** t`, with `t` counted from 0. */
module Discounting {
  import opened RealSums

  /** The rate admits every term of a list of `n` flows: `(1 + rate) ** t` is zero only
      for `1 + rate == 0` and `t >= 1`, so a zero base is harmless with at most one flow. */
  predicate Discountable(rate: real, n: nat)
  {
    1.0 + rate != 0.0 || n <= 1
  }

  /** One term `cf / (1 + rate) ** t` of the sum. */
  function Discount(cf: real, rate: real, t: nat): real
    requires 1.0 + rate != 0.0 || t == 0
  {
    PowZero(1.0 + rate, t);
    cf / Pow(1.0 + rate, t)
  }

  /** The generator `cf / (1 + rate) ** t for t, cf in enumerate(flows)`, as a sequence. */
  function Terms(flows: seq<real>, rate: real): seq<real>
    requires Discountable(rate, |flows|)
  {
    seq(|flows|, t requires 0 <= t < |flows| => Discount(flows[t], rate, t))
  }

  /** Net present value before rounding: the sum of the discounted terms. */
  function PresentValue(flows: seq<real>, rate: real): real
    requires Discountable(rate, |flows|)
  {
    Sum(Terms(flows, rate))
  }

  /** An independent reference: Horner's evaluation `cf_0 + (cf_1 + (cf_2 + …) / (1 + r)) / (1 + r)`. */
  function Horner(flows: seq<real>, rate: real): real
    requires 1.0 + rate != 0.0
  {
    if flows == [] then 0.0 else flows[0] + Horner(flows[1..], rate) / (1.0 + rate)
  }

  /** Every element of `s` divided by `c`. */
  function Divided(s: seq<real>, c: real): seq<real>
    requires c != 0.0
  {
    seq(|s|, i requires 0 <= i < |s| => s[i] / c)
  }

  /** Dividing every element divides the sum. */
  lemma {:induction false} SumDivided(s: seq<real>, c: real)
    requires c != 0.0
    ensures Sum(Divided(s, c)) == Sum(s) / c
  {
    if s != [] {
      var n := |s|;
      assert Divided(s, c)[..n - 1] == Divided(s[..n - 1], c);
      SumDivided(s[..n - 1], c);
      assert Sum(Divided(s, c)) == Sum(s[..n - 1]) / c + s[n - 1] / c;
    }
  }

  /** The empty list is worth nothing at any rate. */
  lemma PresentValueEmpty(rate: real)
    ensures PresentValue([], rate) == 0.0
  {
  }

  /** A single flow is not discounted, whatever the rate (also for `rate == -1`). */
  lemma PresentValueSingle(cf: real, rate: real)
    ensures PresentValue([cf], rate) == cf
  {
    assert Terms([cf], rate) == [cf];
    assert Sum([cf]) == Sum([]) + cf;
  }

  /** The flow at `t = 0` is never discounted: it enters the value unchanged. */
  lemma PresentValueFirstFlow(flows: seq<real>, rate: real)
    requires flows != [] && Discountable(rate, |flows|)
    ensures PresentValue(flows, rate) == flows[0] + Sum(Terms(flows, rate)[1..])
  {
    SumFront(Terms(flows, rate));
  }

  /** At a zero rate the present value is the plain sum of the flows. */
  lemma PresentValueAtZeroRate(flows: seq<real>)
    ensures PresentValue(flows, 0.0) == Sum(flows)
  {
    forall t | 0 <= t < |flows|
      ensures Terms(flows, 0.0)[t] == flows[t]
    {
      PowOne(t);
    }
    assert Terms(flows, 0.0) == flows;
  }

  /** The terms of a list, past its head, are those of its tail discounted once more. */
  lemma TermsTail(flows: seq<real>, rate: real)
    requires flows != [] && 1.0 + rate != 0.0
    ensures Terms(flows, rate)[1..] == Divided(Terms(flows[1..], rate), 1.0 + rate)
  {
    var p := 1.0 + rate;
    forall i | 0 <= i < |flows| - 1
      ensures Terms(flows, rate)[1..][i] == Divided(Terms(flows[1..], rate), p)[i]
    {
      var q := Pow(p, i);
      PowZero(p, i);
      assert Pow(p, i + 1) == p * q;
      DivideTwice(flows[i + 1], p, q);
    }
  }

  /** Dividing by a product is dividing by each factor in turn. */
  lemma DivideTwice(x: real, p: real, q: real)
    requires p != 0.0 && q != 0.0
    ensures x / (p * q) == (x / q) / p
  {
    var y := x / q;
    assert y * q == x;
    assert (y / p) * (p * q) == (y / p) * p * q;
    assert (y / p) * p == y;
  }

  /** The generator sum and Horner's evaluation agree whenever both are defined. */
  lemma {:induction false} PresentValueIsHorner(flows: seq<real>, rate: real)
    requires 1.0 + rate != 0.0
    ensures PresentValue(flows, rate) == Horner(flows, rate)
  {
    if flows != [] {
      var p := 1.0 + rate;
      SumFront(Terms(flows, rate));
      TermsTail(flows, rate);
      SumDivided(Terms(flows[1..], rate), p);
      PresentValueIsHorner(flows[1..], rate);
    }
  }
}
