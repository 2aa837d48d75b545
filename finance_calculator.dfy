/** The finance calculators: net present value, return on investment and payback period
    (backend/services/finance_calculator.py). Floats are modelled as exact reals and the
    final `round(…, 2)` is not modelled. */
module FinanceCalculator {
  import opened Results
  import opened RealSums
  import opened Discounting

  /** `calculate_npv`: the discounted sum, or a division by zero when `(1 + rate) ** t`
      vanishes for some `t >= 1`. */
  function CalculateNpv(flows: seq<real>, rate: real): (r: Result<real>)
    ensures r.Err? <==> 1.0 + rate == 0.0 && |flows| >= 2
    ensures r.Err? ==> r.error == DivisionByZero
    ensures r.Ok? ==> r.value == PresentValue(flows, rate)
    ensures rate == 0.0 ==> r == Ok(Sum(flows))
    ensures flows == [] ==> r == Ok(0.0)
  {
    if Discountable(rate, |flows|) then
      PresentValueAtZeroRate(flows);
      Ok(PresentValue(flows, rate))
    else
      Err(DivisionByZero)
  }

  /** `calculate_roi`: the percentage gain over cost, with an error for a zero cost. The
      contract pins the value by the inverse relation: the cost grown by `r` percent is the gain. */
  function CalculateRoi(gain: real, cost: real): (r: Result<real>)
    ensures r.Err? <==> cost == 0.0
    ensures r.Err? ==> r.error == ZeroCost
    ensures r.Ok? ==> cost + cost * r.value / 100.0 == gain
    ensures r.Ok? ==> (r.value == 0.0 <==> gain == cost)
  {
    if cost == 0.0 then Err(ZeroCost) else Ok((gain - cost) / cost * 100.0)
  }

  /** The running total after the flow at index `i` has come in is not negative. */
  ghost predicate RecoversAt(flows: seq<real>, i: nat)
    requires i < |flows|
  {
    Sum(flows[..i + 1]) >= 0.0
  }

  /** `p` is the payback period of `flows`: the least index whose running total is not
      negative, or -1 when every running total is negative (so also for no flows at all). */
  ghost predicate IsPaybackPeriod(flows: seq<real>, p: int)
  {
    && -1 <= p < |flows|
    && (p >= 0 ==> RecoversAt(flows, p))
    && (forall j :: 0 <= j < |flows| && (p == -1 || j < p) ==> !RecoversAt(flows, j))
  }

  /** `calculate_payback`: accumulates the flows and returns at the first index whose
      running total is at least zero; -1 when none is. */
  method CalculatePayback(flows: seq<real>) returns (period: int)
    ensures IsPaybackPeriod(flows, period)
  {
    var cumulative := 0.0;
    var i := 0;
    while i < |flows|
      invariant 0 <= i <= |flows|
      invariant cumulative == Sum(flows[..i])
      invariant forall j :: 0 <= j < i ==> !RecoversAt(flows, j)
    {
      assert flows[..i + 1][..i] == flows[..i];
      cumulative := cumulative + flows[i];
      if cumulative >= 0.0 {
        return i;
      }
      i := i + 1;
    }
    return -1;
  }

  /** The payback period is uniquely determined by the flows. */
  lemma PaybackPeriodUnique(flows: seq<real>, p: int, q: int)
    requires IsPaybackPeriod(flows, p) && IsPaybackPeriod(flows, q)
    ensures p == q
  {
  }

  /** Flows after the payback period do not affect it. */
  lemma PaybackIgnoresLaterFlows(flows: seq<real>, more: seq<real>, p: int)
    requires IsPaybackPeriod(flows, p) && p >= 0
    ensures IsPaybackPeriod(flows + more, p)
  {
    var all := flows + more;
    forall j | 0 <= j <= p
      ensures RecoversAt(all, j) == RecoversAt(flows, j)
    {
      assert all[..j + 1] == flows[..j + 1];
    }
  }
}
