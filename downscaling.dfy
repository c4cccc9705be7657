/**
  The script's top level for one grid cell: condition the reference
  (gridded observations), the historical model run and the future model
  run, the latter first cropped to 2000-2100, then run the rolling-window
  scheduler. The random noise of the conditioning comes in as draws.
*/
module Downscaling {
  import opened TimeSeries
  import Qdm
  import Conditioning
  import Scheduler

  /** Zero-inflation conditioning of a whole series: the dates stay, the values are conditioned. */
  function ConditionSeries(s: Series, draws: seq<real>): (r: Series)
    requires Conditioning.ValidDraws(draws, |s|)
    ensures |r| == |s|
    ensures forall i :: 0 <= i < |s| ==> r[i].year == s[i].year && r[i].month == s[i].month
    ensures forall i :: 0 <= i < |s| ==> 0.0 < r[i].value
    ensures forall i :: 0 <= i < |s| ==>
      (Conditioning.Threshold < r[i].value <==> Conditioning.Threshold < s[i].value)
    ensures forall i :: 0 <= i < |s| && Conditioning.Threshold < s[i].value ==> r[i].value == s[i].value
    ensures forall i :: 0 <= i < |s| && s[i].value <= Conditioning.Threshold ==> r[i].value == draws[i]
  {
    var v := Conditioning.Condition(Values(s), draws);
    seq(|s|, i requires 0 <= i < |s| => Record(s[i].year, s[i].month, v[i]))
  }

  /** The records of the future run from the first data year to the last target year. */
  function DataPeriod(fut: Series): (idx: seq<nat>)
    ensures Increasing(idx) && IndexesInto(idx, fut)
    ensures forall i: nat :: i in idx <==> i < |fut| && Scheduler.DataStart <= fut[i].year <= Scheduler.LastYear
  {
    Select(fut, All(fut), YearsBetween(Scheduler.DataStart, Scheduler.LastYear))
  }

  /** The future run cropped to the data period. */
  function FutureToEnd(fut: Series): (r: Series)
    ensures forall i :: 0 <= i < |r| ==> Scheduler.DataStart <= r[i].year <= Scheduler.LastYear
    ensures r == Filter(fut, YearsBetween(Scheduler.DataStart, Scheduler.LastYear))
  {
    SelectIsFilter(fut, YearsBetween(Scheduler.DataStart, Scheduler.LastYear));
    Sub(fut, DataPeriod(fut))
  }

  /** The whole downscaling of one cell, as a value. */
  function Downscaled(wrf: Series, hist: Series, fut: Series,
                      wrfDraws: seq<real>, histDraws: seq<real>, futDraws: seq<real>,
                      quantiles: (seq<real>, seq<real>) -> seq<real>): (out: Series)
    requires Qdm.IsEstimator(quantiles)
    requires Conditioning.ValidDraws(wrfDraws, |wrf|) && Conditioning.ValidDraws(histDraws, |hist|)
    requires Conditioning.ValidDraws(futDraws, |FutureToEnd(fut)|)
    ensures forall p :: 0 <= p < |out| ==> out[p].value == 0.0 || Conditioning.Threshold < out[p].value
  {
    Scheduler.Expected(ConditionSeries(wrf, wrfDraws), ConditionSeries(hist, histDraws),
                       ConditionSeries(FutureToEnd(fut), futDraws), quantiles)
  }

  /** Cropping only looks at the dates: two series with the same years crop to the same indices. */
  lemma CroppedByDates(a: Series, b: Series)
    requires |a| == |b| && forall i :: 0 <= i < |a| ==> a[i].year == b[i].year
    ensures Scheduler.Cropped(a) == Scheduler.Cropped(b)
  {
    EnumerationUnique(Scheduler.Cropped(a), Scheduler.Cropped(b));
  }

  /** Read through the data period, the target years of the cropped run are the target years of the full run. */
  lemma CropThrough(fut: Series)
    ensures var idx, c2 := DataPeriod(fut), Scheduler.Cropped(FutureToEnd(fut));
      Pick(idx, c2) == Scheduler.Cropped(fut)
  {
    var idx, f2 := DataPeriod(fut), FutureToEnd(fut);
    var c2, c := Scheduler.Cropped(f2), Scheduler.Cropped(fut);
    var through := Pick(idx, c2);
    assert Increasing(through) by {
      forall j, k | 0 <= j < k < |through| ensures through[j] < through[k] {
        assert c2[j] < c2[k];
      }
    }
    forall i: nat ensures i in through <==> i in c {
      if i in through {
        var k :| 0 <= k < |through| && through[k] == i;
        ThroughIsTarget(fut, k);
      }
      if i in c {
        var k := TargetIsThrough(fut, i);
        assert through[k] == i;
      }
    }
    EnumerationUnique(through, c);
  }

  /** The k-th target of the cropped run, read through the data period, is a target of the full run. */
  lemma ThroughIsTarget(fut: Series, k: nat)
    requires k < |Scheduler.Cropped(FutureToEnd(fut))|
    ensures DataPeriod(fut)[Scheduler.Cropped(FutureToEnd(fut))[k]] in Scheduler.Cropped(fut)
  {
    var idx, f2 := DataPeriod(fut), FutureToEnd(fut);
    var c2 := Scheduler.Cropped(f2);
    assert f2[c2[k]] == fut[idx[c2[k]]];
  }

  /** Every target of the full run is reached through the data period and the cropped run. */
  lemma TargetIsThrough(fut: Series, i: nat) returns (k: nat)
    requires i in Scheduler.Cropped(fut)
    ensures k < |Scheduler.Cropped(FutureToEnd(fut))|
    ensures DataPeriod(fut)[Scheduler.Cropped(FutureToEnd(fut))[k]] == i
  {
    var idx, f2 := DataPeriod(fut), FutureToEnd(fut);
    var c2 := Scheduler.Cropped(f2);
    assert i in idx;
    var j := IndexOf(idx, i);
    assert f2[j] == fut[i];
    assert j in c2;
    k := IndexOf(c2, j);
  }

  /**
    Cropping to 2000-2100 and then to 2019-2100 is cropping to 2019-2100:
    the output entries are the future run's records from 2019 to 2100, in order.
  */
  lemma CropOfCrop(fut: Series)
    ensures var f2, c2, c := FutureToEnd(fut), Scheduler.Cropped(FutureToEnd(fut)), Scheduler.Cropped(fut);
      |c2| == |c| && forall p :: 0 <= p < |c| ==> f2[c2[p]] == fut[c[p]]
  {
    var idx, f2 := DataPeriod(fut), FutureToEnd(fut);
    var c2, c := Scheduler.Cropped(f2), Scheduler.Cropped(fut);
    CropThrough(fut);
    assert Pick(idx, c2) == c;
    forall p | 0 <= p < |c| ensures f2[c2[p]] == fut[c[p]] {
      assert c[p] == idx[c2[p]];
    }
  }

  /**
    The downscaled series has one entry per day of the future run from 2019
    to 2100, in order and on the same dates, each 0 or above the threshold.
  */
  lemma DownscaledDates(wrf: Series, hist: Series, fut: Series,
                        wrfDraws: seq<real>, histDraws: seq<real>, futDraws: seq<real>,
                        quantiles: (seq<real>, seq<real>) -> seq<real>)
    requires Qdm.IsEstimator(quantiles)
    requires Conditioning.ValidDraws(wrfDraws, |wrf|) && Conditioning.ValidDraws(histDraws, |hist|)
    requires Conditioning.ValidDraws(futDraws, |FutureToEnd(fut)|)
    ensures var out, c := Downscaled(wrf, hist, fut, wrfDraws, histDraws, futDraws, quantiles), Scheduler.Cropped(fut);
      |out| == |c| &&
      forall p :: 0 <= p < |out| ==> out[p].year == fut[c[p]].year && out[p].month == fut[c[p]].month
  {
    var f2 := FutureToEnd(fut);
    var cond := ConditionSeries(f2, futDraws);
    CroppedByDates(cond, f2);
    CropOfCrop(fut);
  }

  /**
    No bias, no change: when the historical run is the reference (and is
    conditioned with the same draws), every output value that is not 0 is
    the future run's own value on that date.
  */
  lemma NoBiasNoChange(wrf: Series, fut: Series, wrfDraws: seq<real>, futDraws: seq<real>,
                       quantiles: (seq<real>, seq<real>) -> seq<real>)
    requires Qdm.IsEstimator(quantiles)
    requires Conditioning.ValidDraws(wrfDraws, |wrf|)
    requires Conditioning.ValidDraws(futDraws, |FutureToEnd(fut)|)
    ensures var out, c := Downscaled(wrf, wrf, fut, wrfDraws, wrfDraws, futDraws, quantiles), Scheduler.Cropped(fut);
      |out| == |c| &&
      forall p :: 0 <= p < |out| ==> out[p].value == 0.0 || out[p].value == fut[c[p]].value
  {
    var f2 := FutureToEnd(fut);
    var obs, cond := ConditionSeries(wrf, wrfDraws), ConditionSeries(f2, futDraws);
    var out, c := Downscaled(wrf, wrf, fut, wrfDraws, wrfDraws, futDraws, quantiles), Scheduler.Cropped(fut);
    var c2 := Scheduler.Cropped(f2);
    CroppedByDates(cond, f2);
    CropOfCrop(fut);
    Scheduler.SameClimatologyKeepsValues(obs, cond, quantiles);
    forall p | 0 <= p < |out| ensures out[p].value == 0.0 || out[p].value == fut[c[p]].value {
      if out[p].value != 0.0 {
        assert out[p].value == cond[c2[p]].value;
        assert Conditioning.Threshold < out[p].value;
        assert f2[c2[p]] == fut[c[p]];
      }
    }
  }

  /**
    The script for one cell: condition the three inputs, crop the future run
    to the data period, and run the scheduler on them.
  */
  method Downscale(wrf: Series, hist: Series, fut: Series,
                   wrfDraws: seq<real>, histDraws: seq<real>, futDraws: seq<real>,
                   quantiles: (seq<real>, seq<real>) -> seq<real>) returns (out: Series)
    requires Qdm.IsEstimator(quantiles)
    requires Conditioning.ValidDraws(wrfDraws, |wrf|) && Conditioning.ValidDraws(histDraws, |hist|)
    requires Conditioning.ValidDraws(futDraws, |FutureToEnd(fut)|)
    ensures out == Downscaled(wrf, hist, fut, wrfDraws, histDraws, futDraws, quantiles)
    ensures |out| == |Scheduler.Cropped(fut)|
    ensures forall p :: 0 <= p < |out| ==>
      out[p].year == fut[Scheduler.Cropped(fut)[p]].year && out[p].month == fut[Scheduler.Cropped(fut)[p]].month
    ensures forall p :: 0 <= p < |out| ==> out[p].value == 0.0 || Conditioning.Threshold < out[p].value
  {
    var obs := ConditionSeries(wrf, wrfDraws);
    var histNoZero := ConditionSeries(hist, histDraws);
    var futToEnd := FutureToEnd(fut);
    var futNoZero := ConditionSeries(futToEnd, futDraws);
    out := Scheduler.CorrectFullTimeseries(obs, histNoZero, futNoZero, quantiles);
    DownscaledDates(wrf, hist, fut, wrfDraws, histDraws, futDraws, quantiles);
  }
}
