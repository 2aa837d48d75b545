/** The estimation calculators (backend/services/estimation_calculator.py): the COCOMO mode
    check, function-point counting and expert judgment. Floats are exact reals and the final
    `round(…, 2)` is not modelled. */
module EstimationCalculator {
  import opened Results
  import opened RealSums

  /** The coefficients `(a, b)` of `effort = a * loc ** b` for one COCOMO mode. */
  datatype CocomoCoefficients = CocomoCoefficients(a: real, b: real)

  /** The mode `calculate_cocomo` uses when the caller gives none. */
  const DefaultMode: string := "organic"

  /** The table of accepted modes and their coefficients. */
  const CocomoModes: map<string, CocomoCoefficients> := map[
    "organic" := CocomoCoefficients(2.4, 1.05),
    "semi-detached" := CocomoCoefficients(3.0, 1.12),
    "embedded" := CocomoCoefficients(3.6, 1.20)
  ]

  /** The mode check of `calculate_cocomo`: the coefficients of a known mode, or the
      `ValueError` naming the unknown one. */
  function CocomoParameters(mode: string := DefaultMode): (r: Result<CocomoCoefficients>)
    ensures r.Ok? <==> mode == "organic" || mode == "semi-detached" || mode == "embedded"
    ensures r.Err? ==> r.error == InvalidMode(mode)
    ensures mode == "organic" ==> r == Ok(CocomoCoefficients(2.4, 1.05))
    ensures mode == "semi-detached" ==> r == Ok(CocomoCoefficients(3.0, 1.12))
    ensures mode == "embedded" ==> r == Ok(CocomoCoefficients(3.6, 1.20))
  {
    if mode in CocomoModes then Ok(CocomoModes[mode]) else Err(InvalidMode(mode))
  }

  /** Called without a mode, the check falls back to the default, which is accepted. */
  lemma DefaultModeAccepted()
    ensures CocomoParameters().Ok?
    ensures CocomoParameters() == Ok(CocomoCoefficients(2.4, 1.05))
  {
  }

  /** The other service's spelling "semidetached" is not accepted here. */
  lemma UnhyphenatedSpellingRejected()
    ensures CocomoParameters("semidetached") == Err(InvalidMode("semidetached"))
  {
  }

  /** The function-point weights, in the order the Python dictionary lists them. */
  const FunctionPointWeights: seq<(string, int)> := [
    ("external_inputs", 3),
    ("external_outputs", 4),
    ("external_inquiries", 3),
    ("internal_files", 7),
    ("external_interfaces", 5)
  ]

  /** The effort per function point `calculate_fp` uses when the caller gives none. */
  const DefaultEffortPerPoint: real := 20.0

  /** `inputs.get(k, 0)`. */
  function Count(inputs: map<string, int>, k: string): int
  {
    if k in inputs then inputs[k] else 0
  }

  /** `sum(inputs.get(k, 0) * w for (k, w) in ws)`. */
  function WeightedCount(inputs: map<string, int>, ws: seq<(string, int)>): int
  {
    if ws == [] then 0
    else WeightedCount(inputs, ws[..|ws| - 1]) + Count(inputs, ws[|ws| - 1].0) * ws[|ws| - 1].1
  }

  /** What `calculate_fp` returns. */
  datatype FunctionPointEstimate = FunctionPointEstimate(functionPoints: int, effortHours: real)

  /** `calculate_fp`: the weighted count and the effort it implies. */
  function CalculateFp(inputs: map<string, int>, effortPerPoint: real := DefaultEffortPerPoint): (r: FunctionPointEstimate)
    ensures r.functionPoints ==
      3 * Count(inputs, "external_inputs") + 4 * Count(inputs, "external_outputs")
      + 3 * Count(inputs, "external_inquiries") + 7 * Count(inputs, "internal_files")
      + 5 * Count(inputs, "external_interfaces")
    ensures r.effortHours == r.functionPoints as real * effortPerPoint
  {
    var fp := WeightedCount(inputs, FunctionPointWeights);
    var w := FunctionPointWeights;
    assert w[..4][..3] == w[..3] && w[..3][..2] == w[..2] && w[..2][..1] == w[..1] && w[..1][..0] == [];
    assert WeightedCount(inputs, w[..1]) == 3 * Count(inputs, "external_inputs");
    assert WeightedCount(inputs, w[..2]) == WeightedCount(inputs, w[..1]) + 4 * Count(inputs, "external_outputs");
    assert WeightedCount(inputs, w[..3]) == WeightedCount(inputs, w[..2]) + 3 * Count(inputs, "external_inquiries");
    assert WeightedCount(inputs, w[..4]) == WeightedCount(inputs, w[..3]) + 7 * Count(inputs, "internal_files");
    FunctionPointEstimate(fp, fp as real * effortPerPoint)
  }

  /** Without an explicit factor, each function point costs 20 hours. */
  lemma DefaultEffort(inputs: map<string, int>)
    ensures CalculateFp(inputs).effortHours == CalculateFp(inputs).functionPoints as real * 20.0
  {
  }

  /** Two inputs that agree on a list of keys give the same weighted count over it. */
  lemma {:induction false} WeightedCountOnlyReadsKeys(inputs: map<string, int>, other: map<string, int>, ws: seq<(string, int)>)
    requires forall i :: 0 <= i < |ws| ==> Count(inputs, ws[i].0) == Count(other, ws[i].0)
    ensures WeightedCount(inputs, ws) == WeightedCount(other, ws)
  {
    if ws != [] {
      WeightedCountOnlyReadsKeys(inputs, other, ws[..|ws| - 1]);
    }
  }

  /** With non-negative weights, raising counts never lowers the weighted count. */
  lemma {:induction false} WeightedCountMonotone(inputs: map<string, int>, more: map<string, int>, ws: seq<(string, int)>)
    requires forall i :: 0 <= i < |ws| ==> ws[i].1 >= 0
    requires forall i :: 0 <= i < |ws| ==> Count(inputs, ws[i].0) <= Count(more, ws[i].0)
    ensures WeightedCount(inputs, ws) <= WeightedCount(more, ws)
  {
    if ws != [] {
      var n := |ws| - 1;
      WeightedCountMonotone(inputs, more, ws[..n]);
      assert Count(inputs, ws[n].0) * ws[n].1 <= Count(more, ws[n].0) * ws[n].1;
    }
  }

  /** Keys that are not one of the five weights are ignored. */
  lemma FunctionPointsIgnoreOtherKeys(inputs: map<string, int>, k: string, v: int, effortPerPoint: real)
    requires forall i :: 0 <= i < |FunctionPointWeights| ==> FunctionPointWeights[i].0 != k
    ensures CalculateFp(inputs[k := v], effortPerPoint) == CalculateFp(inputs, effortPerPoint)
  {
    WeightedCountOnlyReadsKeys(inputs[k := v], inputs, FunctionPointWeights);
  }

  /** Missing keys count as zero: no inputs at all give no function points and no effort. */
  lemma FunctionPointsOfNothing(effortPerPoint: real)
    ensures CalculateFp(map[], effortPerPoint) == FunctionPointEstimate(0, 0.0)
  {
  }

  /** With non-negative counts the function points are non-negative, and raising any count
      never lowers them. */
  lemma FunctionPointsMonotone(inputs: map<string, int>, more: map<string, int>, effortPerPoint: real)
    requires forall k :: k in inputs ==> 0 <= inputs[k]
    requires forall i :: 0 <= i < |FunctionPointWeights| ==>
      Count(inputs, FunctionPointWeights[i].0) <= Count(more, FunctionPointWeights[i].0)
    ensures 0 <= CalculateFp(inputs, effortPerPoint).functionPoints
    ensures CalculateFp(inputs, effortPerPoint).functionPoints <= CalculateFp(more, effortPerPoint).functionPoints
  {
    WeightedCountMonotone(map[], inputs, FunctionPointWeights);
    WeightedCountMonotone(inputs, more, FunctionPointWeights);
  }

  /** The least element of a non-empty list. */
  function Minimum(s: seq<real>): (m: real)
    requires s != []
    ensures m in s && forall i :: 0 <= i < |s| ==> m <= s[i]
  {
    if |s| == 1 then s[0]
    else var m := Minimum(s[1..]); if s[0] <= m then s[0] else m
  }

  /** The greatest element of a non-empty list. */
  function Maximum(s: seq<real>): (m: real)
    requires s != []
    ensures m in s && forall i :: 0 <= i < |s| ==> s[i] <= m
  {
    if |s| == 1 then s[0]
    else var m := Maximum(s[1..]); if m <= s[0] then s[0] else m
  }

  /** `calculate_expert_judgment`: the mean of the estimates, an error for none. */
  function CalculateExpertJudgment(estimates: seq<real>): (r: Result<real>)
    ensures r.Err? <==> estimates == []
    ensures r.Err? ==> r.error == EmptyEstimates
    ensures r.Ok? ==> r.value * |estimates| as real == Sum(estimates)
  {
    if estimates == [] then Err(EmptyEstimates) else Ok(Sum(estimates) / |estimates| as real)
  }

  /** Dividing both sides of `n * lo <= s <= n * hi` by a positive `n`. */
  lemma DivideBounds(s: real, n: real, lo: real, hi: real)
    requires 0.0 < n && n * lo <= s <= n * hi
    ensures lo <= s / n <= hi
  {
    assert s / n - lo == (s - n * lo) / n;
    assert hi - s / n == (n * hi - s) / n;
  }

  /** The mean lies between the least and the greatest estimate. */
  lemma MeanBetweenExtremes(estimates: seq<real>)
    requires estimates != []
    ensures Minimum(estimates) <= CalculateExpertJudgment(estimates).value <= Maximum(estimates)
  {
    MeanBounds(estimates, Minimum(estimates), Maximum(estimates));
  }

  /** The sum over the count lies between any lower and upper bound of the elements. */
  lemma MeanBounds(s: seq<real>, lo: real, hi: real)
    requires s != [] && forall i :: 0 <= i < |s| ==> lo <= s[i] <= hi
    ensures lo <= Sum(s) / |s| as real <= hi
  {
    SumBounds(s, lo, hi);
    DivideBounds(Sum(s), |s| as real, lo, hi);
  }
}
