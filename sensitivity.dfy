/**
 * Sensitivity analysis (performSensitivityAnalysis, script.js:143-156): the
 * NPV of the cash flows at eleven evenly spaced rates from `rateMin` to
 * `rateMax`, both given in percent. The values are the ones the source
 * pushes before formatting them with `toFixed(2)`.
 */
module Sensitivity {
  import opened NetPresentValue

  /** The sweep divides the range into ten steps, so it samples eleven rates. */
  const Steps: nat := 10

  /** The `i`-th sampled rate, in percent. */
  function SampleRate(rateMin: real, rateMax: real, i: int): real
  {
    rateMin + (i as real) * ((rateMax - rateMin) / (Steps as real))
  }

  /** Every sampled rate has a finite NPV: none of them is exactly -100%. */
  predicate SamplesDefined(rateMin: real, rateMax: real)
  {
    forall i | 0 <= i <= Steps :: 1.0 + SampleRate(rateMin, rateMax, i) / 100.0 != 0.0
  }

  /** performSensitivityAnalysis: the two parallel arrays built by `push`. */
  method PerformSensitivityAnalysis(flows: seq<real>, rateMin: real, rateMax: real)
    returns (rates: seq<real>, npvs: seq<real>)
    requires SamplesDefined(rateMin, rateMax)
    ensures |rates| == Steps + 1 && |npvs| == Steps + 1
    ensures forall i | 0 <= i < |rates| :: rates[i] == SampleRate(rateMin, rateMax, i)
    ensures forall i | 0 <= i < |npvs| :: 1.0 + rates[i] / 100.0 != 0.0 && npvs[i] == Npv(rates[i] / 100.0, flows)
  {
    var stepSize := (rateMax - rateMin) / (Steps as real);
    rates := [];
    npvs := [];
    for i := 0 to Steps + 1
      invariant |rates| == i && |npvs| == i
      invariant forall k | 0 <= k < i :: rates[k] == SampleRate(rateMin, rateMax, k)
      invariant forall k | 0 <= k < i :: 1.0 + rates[k] / 100.0 != 0.0 && npvs[k] == Npv(rates[k] / 100.0, flows)
    {
      var rate := rateMin + (i as real) * stepSize;
      assert rate == SampleRate(rateMin, rateMax, i);
      rates := rates + [rate];
      npvs := npvs + [Npv(rate / 100.0, flows)];
    }
  }

  /** The sweep starts at the lower end of the range and ends exactly at the upper one. */
  lemma SweepEndpoints(rateMin: real, rateMax: real)
    ensures SampleRate(rateMin, rateMax, 0) == rateMin
    ensures SampleRate(rateMin, rateMax, Steps) == rateMax
  {
  }

  /** Consecutive samples are one step, a tenth of the range, apart. */
  lemma SweepEvenlySpaced(rateMin: real, rateMax: real, i: int)
    ensures SampleRate(rateMin, rateMax, i + 1) - SampleRate(rateMin, rateMax, i) == (rateMax - rateMin) / 10.0
  {
    var step := (rateMax - rateMin) / 10.0;
    assert ((i + 1) as real) * step == (i as real) * step + step;
  }

  /** The sampled rates increase strictly exactly when the range is ordered as the form demands. */
  lemma {:induction false} SweepIncreasing(rateMin: real, rateMax: real, i: int, j: int)
    requires 0 <= i < j <= Steps
    ensures SampleRate(rateMin, rateMax, i) < SampleRate(rateMin, rateMax, j) <==> rateMin < rateMax
    decreases j - i
  {
    SweepEvenlySpaced(rateMin, rateMax, j - 1);
    if i < j - 1 {
      SweepIncreasing(rateMin, rateMax, i, j - 1);
      if rateMin >= rateMax {
        SweepNotIncreasing(rateMin, rateMax, i, j);
      }
    }
  }

  /** With the ends out of order the samples never rise. */
  lemma {:induction false} SweepNotIncreasing(rateMin: real, rateMax: real, i: int, j: int)
    requires rateMin >= rateMax && i <= j
    ensures SampleRate(rateMin, rateMax, j) <= SampleRate(rateMin, rateMax, i)
    decreases j - i
  {
    if i < j {
      SweepEvenlySpaced(rateMin, rateMax, j - 1);
      SweepNotIncreasing(rateMin, rateMax, i, j - 1);
    }
  }

  /** Every sample lies within the range, so a range above -100% keeps every NPV finite. */
  lemma SweepWithinRange(rateMin: real, rateMax: real, i: int)
    requires rateMin <= rateMax && 0 <= i <= Steps
    ensures rateMin <= SampleRate(rateMin, rateMax, i) <= rateMax
  {
    if i < Steps {
      SweepIncreasing(rateMin, rateMax, i, Steps);
    }
    if 0 < i && rateMin < rateMax {
      SweepIncreasing(rateMin, rateMax, 0, i);
    }
  }

  /** A range entered as in the form's hint, "2,8", samples 2%, 2.6%, ..., 8%. */
  lemma HintedSweep(i: int)
    requires 0 <= i <= Steps
    ensures SampleRate(2.0, 8.0, i) == 2.0 + 0.6 * (i as real)
  {
  }

  /** A range above -100% satisfies the sweep's precondition. */
  lemma AboveTotalLossIsDefined(rateMin: real, rateMax: real)
    requires -100.0 < rateMin < rateMax
    ensures SamplesDefined(rateMin, rateMax)
  {
    forall i | 0 <= i <= Steps
      ensures 1.0 + SampleRate(rateMin, rateMax, i) / 100.0 != 0.0
    {
      SweepWithinRange(rateMin, rateMax, i);
    }
  }
}
