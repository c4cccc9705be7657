/**
  The two threshold steps around the correction: zero-inflation
  conditioning of the inputs (near-zero values replaced by small random
  noise so that quantiles do not pile up at zero) and the final floor that
  turns every near-zero or missing corrected value back into exactly 0.
*/
module Conditioning {
  import opened Wrappers

  /** Precipitation at or below this many mm/day counts as none. */
  const Threshold: real := 0.05

  /** Lower end of the uniform noise that replaces near-zero values. */
  const NoiseLow: real := 0.01

  /** Draws of `uniform(low=NoiseLow, high=Threshold)`, one per value. */
  predicate ValidDraws(draws: seq<real>, n: nat) {
    |draws| == n && forall i :: 0 <= i < n ==> NoiseLow <= draws[i] < Threshold
  }

  /**
    Keep every value above the threshold and replace the others with the
    draw at the same position: no conditioned value is zero, and the values
    above the threshold are exactly those that were above it before.
  */
  function Condition(values: seq<real>, draws: seq<real>): (r: seq<real>)
    requires ValidDraws(draws, |values|)
    ensures |r| == |values|
    ensures forall i :: 0 <= i < |r| ==> 0.0 < r[i]
    ensures forall i :: 0 <= i < |r| ==> (Threshold < r[i] <==> Threshold < values[i])
    ensures forall i :: 0 <= i < |r| ==> (Threshold < values[i] ==> r[i] == values[i])
    ensures forall i :: 0 <= i < |r| ==> (values[i] <= Threshold ==> r[i] == draws[i])
    ensures forall i :: 0 <= i < |r| ==> (values[i] <= Threshold ==> NoiseLow <= r[i] < Threshold)
  {
    seq(|values|, i requires 0 <= i < |values| => if Threshold < values[i] then values[i] else draws[i])
  }

  /**
    The post-processing floor `where(v > Threshold, v, 0)`: a value above the
    threshold is kept, anything else, a missing value included, becomes 0.
  */
  function FloorNearZero(v: Option<real>): (r: real)
    ensures r == 0.0 || Threshold < r
    ensures Threshold < r <==> v.Some? && Threshold < v.value
    ensures Threshold < r ==> r == v.value
  {
    if v.Some? && Threshold < v.value then v.value else 0.0
  }

  /** Flooring twice is flooring once. */
  lemma FloorIdempotent(v: Option<real>)
    ensures FloorNearZero(Some(FloorNearZero(v))) == FloorNearZero(v)
  {
  }

  /**
    The floor removes exactly the noise the conditioning injects: flooring
    a conditioned sample gives the same result as flooring the raw one.
  */
  lemma FloorUndoesCondition(values: seq<real>, draws: seq<real>)
    requires ValidDraws(draws, |values|)
    ensures forall i :: 0 <= i < |values| ==>
      FloorNearZero(Some(Condition(values, draws)[i])) == FloorNearZero(Some(values[i]))
  {
  }
}
