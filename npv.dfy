/** The standalone net-present-value service (backend/services/npv.py): the same generator
    sum as the finance calculator, before `round(…, 2)`. */
module NpvService {
  import opened Results
  import opened Discounting
  import FinanceCalculator

  /** `calculate_npv`: `Σ cf_t / (1 + rate) ** t`, or a division by zero when the rate is -1
      and some flow has `t >= 1`. */
  function CalculateNpv(flows: seq<real>, rate: real): (r: Result<real>)
    ensures r.Err? <==> rate == -1.0 && |flows| >= 2
    ensures r.Err? ==> r.error == DivisionByZero
    ensures r.Ok? ==> r.value == PresentValue(flows, rate)
    ensures r.Ok? && 1.0 + rate != 0.0 ==> r.value == Horner(flows, rate)
    ensures |flows| == 1 ==> r == Ok(flows[0])
  {
    if !Discountable(rate, |flows|) then
      Err(DivisionByZero)
    else
      var v := PresentValue(flows, rate);
      assert 1.0 + rate != 0.0 ==> v == Horner(flows, rate) by {
        if 1.0 + rate != 0.0 {
          PresentValueIsHorner(flows, rate);
        }
      }
      assert |flows| == 1 ==> v == flows[0] by {
        if |flows| == 1 {
          assert flows == [flows[0]];
          PresentValueSingle(flows[0], rate);
        }
      }
      Ok(v)
  }

  /** The two services compute the same result on every input, errors included. */
  lemma AgreesWithFinanceCalculator(flows: seq<real>, rate: real)
    ensures CalculateNpv(flows, rate) == FinanceCalculator.CalculateNpv(flows, rate)
  {
  }
}
