/**
  The per-cell quantile delta mapping corrector of Cannon et al. (2014),
  multiplicative form: a future value x becomes x * f2o(x) / f2c(x), where
  f2o and f2c interpolate from the future quantiles to the reference and to
  the model-historical quantiles at the same probability levels.
*/
module Qdm {
  import opened Wrappers
  import opened Interpolation

  /** Number of bins of the probability grid. */
  const NBins: nat := 1000

  /** The smallest integer at or above q. */
  function Ceil(q: real): (n: int)
    ensures (n - 1) as real < q <= n as real
  {
    -((-q).Floor)
  }

  /**
    Evenly spaced values start, start + step, ... that stay below stop, as
    numpy's `arange` produces them: ceil((stop - start) / step) of them.
  */
  function Arange(start: real, stop: real, step: real): (r: seq<real>)
    requires 0.0 < step
    ensures forall i :: 0 <= i < |r| ==> r[i] == start + i as real * step
    ensures forall i :: 0 <= i < |r| ==> r[i] < stop
    ensures stop <= start + |r| as real * step
  {
    var n := Ceil((stop - start) / step);
    var count: nat := if n < 0 then 0 else n;
    var r := seq(count, i => start + i as real * step);
    StepsWithin(start, stop, step, r);
    r
  }

  /** Exactly ceil((stop - start) / step) steps stay below stop and the next one reaches it. */
  lemma StepsWithin(start: real, stop: real, step: real, r: seq<real>)
    requires 0.0 < step
    requires |r| == 0 || (|r| - 1) as real < (stop - start) / step
    requires (stop - start) / step <= |r| as real
    requires forall i :: 0 <= i < |r| ==> r[i] == start + i as real * step
    ensures forall i :: 0 <= i < |r| ==> r[i] < stop
    ensures stop <= start + |r| as real * step
  {
    forall i | 0 <= i < |r| ensures r[i] < stop {
      StepsBelow(start, stop, step, i as real);
    }
    StepsReach(start, stop, step, |r| as real);
  }

  /** Fewer than (stop - start) / step steps from start stay below stop. */
  lemma StepsBelow(start: real, stop: real, step: real, m: real)
    requires 0.0 < step && m < (stop - start) / step
    ensures start + m * step < stop
  {
    var q := (stop - start) / step;
    assert q * step == stop - start;
    MulStrict(m, q, step);
  }

  /** At least (stop - start) / step steps from start reach stop. */
  lemma StepsReach(start: real, stop: real, step: real, m: real)
    requires 0.0 < step && (stop - start) / step <= m
    ensures stop <= start + m * step
  {
    var q := (stop - start) / step;
    assert q * step == stop - start;
    if q < m {
      MulStrict(q, m, step);
    }
  }

  lemma MulStrict(a: real, b: real, c: real)
    requires a < b && 0.0 < c
    ensures a * c < b * c
  {
    assert b * c - a * c == (b - a) * c;
  }

  /**
    The probability levels handed to the quantile estimator: bin midpoints
    -1/(2 NBins), 1/(2 NBins), ..., one level below 0 and one above 1.
  */
  function ProbabilityGrid(): (probs: seq<real>)
    ensures |probs| == NBins + 2
    ensures forall i :: 0 <= i < |probs| ==> probs[i] == (2 * i - 1) as real / (2 * NBins) as real
    ensures probs[0] < 0.0 && 1.0 < probs[|probs| - 1]
    ensures StrictlyIncreasing(probs)
  {
    var step := 1.0 / NBins as real;
    Arange(-step * 0.5, 1.0 + step, step)
  }

  /**
    What the corrector needs of the quantile estimator (`mquantiles`): one
    estimate per probability level, never decreasing when the levels do not.
  */
  ghost predicate IsEstimator(quantiles: (seq<real>, seq<real>) -> seq<real>) {
    forall sample, probs ::
      |quantiles(sample, probs)| == |probs| &&
      (NonDecreasing(probs) ==> NonDecreasing(quantiles(sample, probs)))
  }

  /** The estimates of one sample on the probability grid: one per level, never decreasing. */
  function Quantiles(quantiles: (seq<real>, seq<real>) -> seq<real>, sample: seq<real>): (q: seq<real>)
    requires IsEstimator(quantiles)
    ensures |q| == NBins + 2 && NonDecreasing(q)
  {
    var probs := ProbabilityGrid();
    assert NonDecreasing(probs);
    quantiles(sample, probs)
  }

  /** Three quantile vectors at the same levels, the future one usable as interpolation knots. */
  predicate QuantileTriple(qo: seq<real>, qc: seq<real>, qf: seq<real>) {
    |qo| == |qc| == |qf| >= 2 && NonDecreasing(qf)
  }

  /**
    The QDM formula x * o / c on the interpolated values o = f2o(x) and
    c = f2c(x): missing when either is missing (a NaN propagates through
    the arithmetic) or when c is zero.
  */
  function Ratio(x: real, o: Option<real>, c: Option<real>): (r: Option<real>)
    ensures r.Some? <==> o.Some? && c.Some? && c.value != 0.0
  {
    if o.Some? && c.Some? && c.value != 0.0 then Some(x * o.value / c.value) else None
  }

  /**
    The corrector for one future value x: x times f2o(x) over f2c(x).
    Missing when x is outside the future quantile range (both maps are
    missing there) or when f2c(x) is zero.
  */
  function CorrectValue(qo: seq<real>, qc: seq<real>, qf: seq<real>, x: real): (r: Option<real>)
    requires QuantileTriple(qo, qc, qf)
    ensures r.Some? <==> qf[0] <= x <= qf[|qf| - 1] && Interp(qf, qc, x).value != 0.0
  {
    Ratio(x, Interp(qf, qo, x), Interp(qf, qc, x))
  }

  /** The corrector applied to every value of a future sample, each on its own. */
  function CorrectSample(qo: seq<real>, qc: seq<real>, qf: seq<real>, fut: seq<real>): (r: seq<Option<real>>)
    requires QuantileTriple(qo, qc, qf)
    ensures |r| == |fut|
    ensures forall i :: 0 <= i < |r| ==> (r[i].Some? ==> qf[0] <= fut[i] <= qf[|qf| - 1])
  {
    seq(|fut|, i requires 0 <= i < |fut| => CorrectValue(qo, qc, qf, fut[i]))
  }

  /**
    One call of the per-cell corrector: estimate the reference, historical
    and future quantiles on the probability grid and correct every future
    value with the resulting maps.
  */
  function Correct(obs: seq<real>, hist: seq<real>, fut: seq<real>,
                   quantiles: (seq<real>, seq<real>) -> seq<real>): (r: seq<Option<real>>)
    requires IsEstimator(quantiles)
    ensures |r| == |fut|
  {
    CorrectSample(Quantiles(quantiles, obs), Quantiles(quantiles, hist), Quantiles(quantiles, fut), fut)
  }

  /** The correction is elementwise: correcting two samples back to back is correcting each. */
  lemma CorrectSampleSplits(qo: seq<real>, qc: seq<real>, qf: seq<real>, a: seq<real>, b: seq<real>)
    requires QuantileTriple(qo, qc, qf)
    ensures CorrectSample(qo, qc, qf, a + b) == CorrectSample(qo, qc, qf, a) + CorrectSample(qo, qc, qf, b)
  {
    var whole, left, right := CorrectSample(qo, qc, qf, a + b), CorrectSample(qo, qc, qf, a), CorrectSample(qo, qc, qf, b);
    forall i | 0 <= i < |a + b| ensures whole[i] == (left + right)[i] {
      if i < |a| {
        assert (a + b)[i] == a[i];
      } else {
        assert (a + b)[i] == b[i - |a|];
      }
    }
  }

  /** The formula returns x itself when both interpolated values agree. */
  lemma RatioSame(x: real, c: Option<real>)
    ensures Ratio(x, c, c).Some? ==> Ratio(x, c, c).value == x
  {
    if Ratio(x, c, c).Some? {
      assert x * c.value / c.value == x;
    }
  }

  /** The formula returns k * x when the reference value is k times the historical one. */
  lemma RatioScaled(x: real, o: Option<real>, c: Option<real>, k: real)
    requires o.Some? == c.Some? && (c.Some? ==> o.value == k * c.value)
    ensures Ratio(x, o, c).Some? ==> Ratio(x, o, c).value == k * x
  {
    if Ratio(x, o, c).Some? {
      assert x * o.value == (k * x) * c.value;
    }
  }

  /** Over f2c(x) = x the formula returns f2o(x). */
  lemma RatioOverSelf(x: real, o: Option<real>)
    requires x != 0.0
    ensures Ratio(x, o, Some(x)) == o
  {
    if o.Some? {
      var c := Some(x);
      assert c.Some? && c.value == x;
      assert c.value != 0.0;
      assert Ratio(x, o, c).Some?;
      MulDivCancel(x, o.value);
      assert Ratio(x, o, c).value == o.value;
    }
  }

  lemma MulDivCancel(x: real, v: real)
    requires x != 0.0
    ensures x * v / x == v
  {
  }

  /** Positive x, f2o(x) and f2c(x) give a positive corrected value. */
  lemma RatioPositive(x: real, o: real, c: real)
    requires 0.0 < x && 0.0 < o && 0.0 < c
    ensures Ratio(x, Some(o), Some(c)).Some? && 0.0 < Ratio(x, Some(o), Some(c)).value
  {
    assert 0.0 < x * o;
  }

  /** No bias and no change: when the reference and historical quantiles agree, x is returned unchanged. */
  lemma CorrectIdentity(qo: seq<real>, qf: seq<real>, x: real)
    requires QuantileTriple(qo, qo, qf)
    ensures CorrectValue(qo, qo, qf, x).Some? ==> CorrectValue(qo, qo, qf, x).value == x
  {
    RatioSame(x, Interp(qf, qo, x));
  }

  /**
    Ratio correctness: when every reference quantile is k times the
    historical one, x is corrected to k * x wherever f2c(x) is defined and non-zero.
  */
  lemma CorrectScaled(qo: seq<real>, qc: seq<real>, qf: seq<real>, k: real, x: real)
    requires QuantileTriple(qo, qc, qf) && qo == Scaled(k, qc)
    ensures CorrectValue(qo, qc, qf, x).Some? ==> CorrectValue(qo, qc, qf, x).value == k * x
  {
    InterpScaled(qf, qc, k, x);
    RatioScaled(x, Interp(qf, qo, x), Interp(qf, qc, x), k);
  }

  /**
    No projected change: when the future quantiles equal the historical
    ones, QDM reduces to plain quantile mapping from future to reference.
  */
  lemma CorrectWithoutChange(qo: seq<real>, qf: seq<real>, x: real)
    requires QuantileTriple(qo, qf, qf) && x != 0.0
    ensures CorrectValue(qo, qf, qf, x) == Interp(qf, qo, x)
  {
    if qf[0] <= x <= qf[|qf| - 1] {
      InterpSelf(qf, x);
      RatioOverSelf(x, Interp(qf, qo, x));
    }
  }

  /**
    With positive reference and historical quantiles (as estimated from
    zero-inflated samples) a positive x inside the future quantile range is
    always corrected, to a positive value: the denominator never vanishes.
  */
  lemma CorrectPositive(qo: seq<real>, qc: seq<real>, qf: seq<real>, x: real)
    requires QuantileTriple(qo, qc, qf)
    requires forall i :: 0 <= i < |qo| ==> 0.0 < qo[i] && 0.0 < qc[i]
    requires 0.0 < x && qf[0] <= x <= qf[|qf| - 1]
    ensures CorrectValue(qo, qc, qf, x).Some? && 0.0 < CorrectValue(qo, qc, qf, x).value
  {
    InterpPositive(qf, qo, x);
    InterpPositive(qf, qc, x);
    RatioPositive(x, Interp(qf, qo, x).value, Interp(qf, qc, x).value);
  }

  /** Same reference and historical sample: every defined corrected value is the future value itself. */
  lemma CorrectSameClimatology(obs: seq<real>, fut: seq<real>, quantiles: (seq<real>, seq<real>) -> seq<real>)
    requires IsEstimator(quantiles)
    ensures forall i :: 0 <= i < |fut| ==>
      Correct(obs, obs, fut, quantiles)[i].Some? ==> Correct(obs, obs, fut, quantiles)[i].value == fut[i]
  {
    var qo, qf := Quantiles(quantiles, obs), Quantiles(quantiles, fut);
    forall i | 0 <= i < |fut| ensures Correct(obs, obs, fut, quantiles)[i] == CorrectValue(qo, qo, qf, fut[i]) {
    }
    forall i | 0 <= i < |fut| ensures CorrectValue(qo, qo, qf, fut[i]).Some? ==> CorrectValue(qo, qo, qf, fut[i]).value == fut[i] {
      CorrectIdentity(qo, qf, fut[i]);
    }
  }
}
