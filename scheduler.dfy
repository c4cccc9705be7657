/**
  The rolling-window, month-by-month scheduler of one grid cell. For each
  target year from 2019 to 2100 and each calendar month it corrects the
  future values of that month over the 39-year window centred on the year,
  against the reference and historical values of the same month over their
  whole record, and writes back only the corrected values of the target
  year. Afterwards every near-zero value is floored to 0.
*/
module Scheduler {
  import opened Wrappers
  import opened TimeSeries
  import Qdm
  import Conditioning

  /** First and last target year of the output. */
  const FirstYear: int := 2019
  const LastYear: int := 2100

  /** The window reaches this many years to either side of the target year. */
  const HalfWindow: int := 19

  /** First year of the future data handed to the scheduler. */
  const DataStart: int := 2000

  /** The output time axis: the future series from the first to the last target year. */
  function Cropped(fut: Series): (crop: seq<nat>)
    ensures Increasing(crop) && IndexesInto(crop, fut)
    ensures forall p :: 0 <= p < |crop| ==> FirstYear <= fut[crop[p]].year <= LastYear
    ensures forall i: nat :: i in crop <==> i < |fut| && FirstYear <= fut[i].year <= LastYear
  {
    Select(fut, All(fut), YearsBetween(FirstYear, LastYear))
  }

  /** The future series over the rolling window of a target year. */
  function Roll(fut: Series, year: int): (roll: seq<nat>)
    ensures Increasing(roll) && IndexesInto(roll, fut)
    ensures forall i: nat :: i in roll <==> i < |fut| && year - HalfWindow <= fut[i].year <= year + HalfWindow
  {
    Select(fut, All(fut), YearsBetween(year - HalfWindow, year + HalfWindow))
  }

  /** The future sample of one correction: one calendar month of the rolling window. */
  function Window(fut: Series, year: int, m: Month): (w: seq<nat>)
    ensures Increasing(w) && IndexesInto(w, fut)
    ensures forall i: nat :: i in w <==>
      i < |fut| && year - HalfWindow <= fut[i].year <= year + HalfWindow && fut[i].month == m
  {
    Select(fut, Roll(fut, year), MonthIs(m))
  }

  /**
    The reference or historical sample of a calendar month: that month in
    every year of the record, the same for every target year.
  */
  function MonthSample(s: Series, m: Month): (sample: seq<real>)
    ensures sample == Values(Filter(s, MonthIs(m)))
  {
    var idx := Select(s, All(s), MonthIs(m));
    SelectIsFilter(s, MonthIs(m));
    Values(Sub(s, idx))
  }

  /** The corrected values of one window, in the order of the window. */
  function WindowCorrected(obs: Series, hist: Series, fut: Series,
                           quantiles: (seq<real>, seq<real>) -> seq<real>,
                           year: int, m: Month): (r: seq<Option<real>>)
    requires Qdm.IsEstimator(quantiles)
    ensures |r| == |Window(fut, year, m)|
  {
    Qdm.Correct(MonthSample(obs, m), MonthSample(hist, m), Values(Sub(fut, Window(fut, year, m))), quantiles)
  }

  /**
    The corrected value of future entry i: the value at i's own timestamp in
    the correction of i's month over the window centred on i's year.
  */
  function CorrectedEntry(obs: Series, hist: Series, fut: Series,
                          quantiles: (seq<real>, seq<real>) -> seq<real>, i: nat): (r: Option<real>)
    requires Qdm.IsEstimator(quantiles) && i < |fut|
    ensures var m := fut[i].month;
      r == Qdm.CorrectValue(Qdm.Quantiles(quantiles, MonthSample(obs, m)), Qdm.Quantiles(quantiles, MonthSample(hist, m)),
                            Qdm.Quantiles(quantiles, Values(Sub(fut, Window(fut, fut[i].year, m)))), fut[i].value)
  {
    var w := Window(fut, fut[i].year, fut[i].month);
    WindowCorrected(obs, hist, fut, quantiles, fut[i].year, fut[i].month)[IndexOf(w, i)]
  }

  /** What the scheduler returns: every output entry corrected once, then floored. */
  function Expected(obs: Series, hist: Series, fut: Series,
                    quantiles: (seq<real>, seq<real>) -> seq<real>): (out: Series)
    requires Qdm.IsEstimator(quantiles)
    ensures |out| == |Cropped(fut)|
    ensures forall p :: 0 <= p < |out| ==>
      out[p].year == fut[Cropped(fut)[p]].year && out[p].month == fut[Cropped(fut)[p]].month
    ensures forall p :: 0 <= p < |out| ==> FirstYear <= out[p].year <= LastYear
    ensures forall p :: 0 <= p < |out| ==> out[p].value == 0.0 || Conditioning.Threshold < out[p].value
  {
    var crop := Cropped(fut);
    seq(|crop|, p requires 0 <= p < |crop| =>
      Record(fut[crop[p]].year, fut[crop[p]].month,
             Conditioning.FloorNearZero(CorrectedEntry(obs, hist, fut, quantiles, crop[p]))))
  }

  /** Entries handled before iteration (year, month). */
  predicate Done(r: Record, year: int, month: int) {
    r.year < year || (r.year == year && r.month < month)
  }

  /**
    The working copy before iteration (year, month): the entries already
    handled hold their correction, the others still the future value.
  */
  predicate Progress(obs: Series, hist: Series, fut: Series,
                     quantiles: (seq<real>, seq<real>) -> seq<real>,
                     a: seq<Option<real>>, year: int, month: int)
    requires Qdm.IsEstimator(quantiles)
  {
    var crop := Cropped(fut);
    |a| == |crop| &&
    forall p :: 0 <= p < |a| ==>
      a[p] == if Done(fut[crop[p]], year, month) then CorrectedEntry(obs, hist, fut, quantiles, crop[p])
              else Some(fut[crop[p]].value)
  }

  /**
    The write-back of iteration (year, m) is positional: the k-th output
    entry of that year and month receives the k-th corrected window value
    of that year. Both lists have the same length and the k-th entries are
    the same future timestamp, so each value lands on its own date.
  */
  lemma AlignedWriteBack(fut: Series, year: int, m: Month)
    requires FirstYear <= year <= LastYear
    ensures var crop, w := Cropped(fut), Window(fut, year, m);
      var targets, sources := Positions(fut, crop, YearMonthIs(year, m)), Positions(fut, w, YearIs(year));
      |targets| == |sources| &&
      forall k :: 0 <= k < |targets| ==> sources[k] < |w| && crop[targets[k]] == w[sources[k]]
  {
    var crop, w := Cropped(fut), Window(fut, year, m);
    var targets, sources := Positions(fut, crop, YearMonthIs(year, m)), Positions(fut, w, YearIs(year));
    var a := Select(fut, crop, YearMonthIs(year, m));
    var b := Select(fut, w, YearIs(year));
    assert a == Pick(crop, targets) && b == Pick(w, sources);
    forall i: nat ensures i in a <==> i < |fut| && fut[i].year == year && fut[i].month == m {
    }
    forall i: nat ensures i in b <==> i < |fut| && fut[i].year == year && fut[i].month == m {
    }
    EnumerationUnique(a, b);
    forall k | 0 <= k < |targets| ensures crop[targets[k]] == w[sources[k]] {
      assert a[k] == crop[targets[k]] && b[k] == w[sources[k]];
    }
  }

  /** One iteration's write-back moves the working copy from (year, month) to (year, month + 1). */
  lemma MonthStep(obs: Series, hist: Series, fut: Series,
                  quantiles: (seq<real>, seq<real>) -> seq<real>,
                  before: seq<Option<real>>, after: seq<Option<real>>, year: int, month: Month,
                  targets: seq<nat>, sources: seq<nat>)
    requires Qdm.IsEstimator(quantiles) && FirstYear <= year <= LastYear
    requires Progress(obs, hist, fut, quantiles, before, year, month) && |after| == |before|
    requires targets == Positions(fut, Cropped(fut), YearMonthIs(year, month))
    requires sources == Positions(fut, Window(fut, year, month), YearIs(year))
    requires |targets| == |sources|
    requires forall k :: 0 <= k < |targets| ==>
      after[targets[k]] == WindowCorrected(obs, hist, fut, quantiles, year, month)[sources[k]]
    requires forall p :: 0 <= p < |after| && p !in targets ==> after[p] == before[p]
    ensures Progress(obs, hist, fut, quantiles, after, year, month + 1)
  {
    var crop := Cropped(fut);
    forall p | 0 <= p < |after|
      ensures after[p] == if Done(fut[crop[p]], year, month + 1) then CorrectedEntry(obs, hist, fut, quantiles, crop[p])
                          else Some(fut[crop[p]].value)
    {
      EntryAfterStep(obs, hist, fut, quantiles, before, after, year, month, targets, sources, p);
    }
  }

  /** Entry p after iteration (year, month): written if it is dated then, kept otherwise. */
  lemma EntryAfterStep(obs: Series, hist: Series, fut: Series,
                       quantiles: (seq<real>, seq<real>) -> seq<real>,
                       before: seq<Option<real>>, after: seq<Option<real>>, year: int, month: Month,
                       targets: seq<nat>, sources: seq<nat>, p: nat)
    requires Qdm.IsEstimator(quantiles) && FirstYear <= year <= LastYear
    requires Progress(obs, hist, fut, quantiles, before, year, month) && |after| == |before|
    requires targets == Positions(fut, Cropped(fut), YearMonthIs(year, month))
    requires sources == Positions(fut, Window(fut, year, month), YearIs(year))
    requires |targets| == |sources|
    requires forall k :: 0 <= k < |targets| ==>
      after[targets[k]] == WindowCorrected(obs, hist, fut, quantiles, year, month)[sources[k]]
    requires forall p :: 0 <= p < |after| && p !in targets ==> after[p] == before[p]
    requires p < |after|
    ensures var i := Cropped(fut)[p];
      after[p] == if Done(fut[i], year, month + 1) then CorrectedEntry(obs, hist, fut, quantiles, i)
                  else Some(fut[i].value)
  {
    if p in targets {
      var k := IndexOf(targets, p);
      WrittenEntry(obs, hist, fut, quantiles, after, year, month, targets, sources, k);
    } else {
      KeptEntry(obs, hist, fut, quantiles, before, after, year, month, targets, p);
    }
  }

  /** An entry written in iteration (year, month) holds its own correction and counts as done afterwards. */
  lemma WrittenEntry(obs: Series, hist: Series, fut: Series,
                     quantiles: (seq<real>, seq<real>) -> seq<real>,
                     after: seq<Option<real>>, year: int, month: Month,
                     targets: seq<nat>, sources: seq<nat>, k: nat)
    requires Qdm.IsEstimator(quantiles) && FirstYear <= year <= LastYear
    requires targets == Positions(fut, Cropped(fut), YearMonthIs(year, month))
    requires sources == Positions(fut, Window(fut, year, month), YearIs(year))
    requires |targets| == |sources| && k < |targets| && targets[k] < |after|
    requires after[targets[k]] == WindowCorrected(obs, hist, fut, quantiles, year, month)[sources[k]]
    ensures var i := Cropped(fut)[targets[k]];
      after[targets[k]] == CorrectedEntry(obs, hist, fut, quantiles, i) && Done(fut[i], year, month + 1)
  {
    var crop, w := Cropped(fut), Window(fut, year, month);
    AlignedWriteBack(fut, year, month);
    TargetDate(fut, crop, year, month, targets, k);
    assert crop[targets[k]] == w[sources[k]];
    EntryOfWindow(obs, hist, fut, quantiles, year, month, sources[k]);
  }

  /** An entry not written in iteration (year, month) keeps its state, which stays consistent. */
  lemma KeptEntry(obs: Series, hist: Series, fut: Series,
                  quantiles: (seq<real>, seq<real>) -> seq<real>,
                  before: seq<Option<real>>, after: seq<Option<real>>, year: int, month: Month,
                  targets: seq<nat>, p: nat)
    requires Qdm.IsEstimator(quantiles)
    requires Progress(obs, hist, fut, quantiles, before, year, month)
    requires targets == Positions(fut, Cropped(fut), YearMonthIs(year, month))
    requires p < |before| && p < |after| && p !in targets && after[p] == before[p]
    ensures var i := Cropped(fut)[p];
      after[p] == if Done(fut[i], year, month + 1) then CorrectedEntry(obs, hist, fut, quantiles, i)
                  else Some(fut[i].value)
  {
    var crop := Cropped(fut);
    var r := fut[crop[p]];
    assert !Matches(r, YearMonthIs(year, month));
    DoneUnlessCurrent(r, year, month);
  }

  /** A record not dated (year, month) is done after that iteration exactly when it was done before it. */
  lemma DoneUnlessCurrent(r: Record, year: int, month: int)
    requires !(r.year == year && r.month == month)
    ensures Done(r, year, month + 1) == Done(r, year, month)
  {
  }

  /** The k-th target of iteration (year, m) is dated in that year and month. */
  lemma TargetDate(fut: Series, crop: seq<nat>, year: int, m: Month, targets: seq<nat>, k: nat)
    requires IndexesInto(crop, fut)
    requires targets == Positions(fut, crop, YearMonthIs(year, m)) && k < |targets|
    ensures targets[k] < |crop| && fut[crop[targets[k]]].year == year && fut[crop[targets[k]]].month == m
  {
    assert Matches(fut[crop[targets[k]]], YearMonthIs(year, m));
  }

  /** Entry j of a window whose date lies in the target year is corrected by that window. */
  lemma EntryOfWindow(obs: Series, hist: Series, fut: Series,
                      quantiles: (seq<real>, seq<real>) -> seq<real>, year: int, m: Month, j: nat)
    requires Qdm.IsEstimator(quantiles)
    requires j < |Window(fut, year, m)| && fut[Window(fut, year, m)[j]].year == year
    ensures CorrectedEntry(obs, hist, fut, quantiles, Window(fut, year, m)[j]) ==
            WindowCorrected(obs, hist, fut, quantiles, year, m)[j]
  {
    var w := Window(fut, year, m);
    assert fut[w[j]].month == m;
    IndexOfIncreasing(w, j);
  }

  /**
    Assign vals[k] to a[targets[k]] for every k and leave every other entry
    alone. The targets are distinct, so each is assigned exactly once.
  */
  method WriteBack(a: array<Option<real>>, targets: seq<nat>, vals: seq<Option<real>>)
    requires |targets| == |vals| && Increasing(targets)
    requires forall k :: 0 <= k < |targets| ==> targets[k] < a.Length
    modifies a
    ensures forall k :: 0 <= k < |targets| ==> a[targets[k]] == vals[k]
    ensures forall p :: 0 <= p < a.Length && p !in targets ==> a[p] == old(a[p])
  {
    for k := 0 to |targets|
      invariant forall j :: 0 <= j < k ==> a[targets[j]] == vals[j]
      invariant forall p :: 0 <= p < a.Length && p !in targets[..k] ==> a[p] == old(a[p])
    {
      a[targets[k]] := vals[k];
    }
    assert targets[..|targets|] == targets;
  }

  /** The untouched copy of the cropped future series: nothing is done before the first target year. */
  lemma ProgressStart(obs: Series, hist: Series, fut: Series,
                      quantiles: (seq<real>, seq<real>) -> seq<real>, a: seq<Option<real>>)
    requires Qdm.IsEstimator(quantiles)
    requires |a| == |Cropped(fut)|
    requires forall p :: 0 <= p < |a| ==> a[p] == Some(fut[Cropped(fut)[p]].value)
    ensures Progress(obs, hist, fut, quantiles, a, FirstYear, 1)
  {
  }

  /** After the twelve months of a year the next year starts. */
  lemma ProgressNextYear(obs: Series, hist: Series, fut: Series,
                         quantiles: (seq<real>, seq<real>) -> seq<real>, a: seq<Option<real>>, year: int)
    requires Qdm.IsEstimator(quantiles)
    requires Progress(obs, hist, fut, quantiles, a, year, 13)
    ensures Progress(obs, hist, fut, quantiles, a, year + 1, 1)
  {
    var crop := Cropped(fut);
    assert forall p :: 0 <= p < |a| ==> (Done(fut[crop[p]], year, 13) <==> Done(fut[crop[p]], year + 1, 1));
  }

  /** After the last target year every entry holds its correction. */
  lemma ProgressFinished(obs: Series, hist: Series, fut: Series,
                         quantiles: (seq<real>, seq<real>) -> seq<real>, a: seq<Option<real>>)
    requires Qdm.IsEstimator(quantiles)
    requires Progress(obs, hist, fut, quantiles, a, LastYear + 1, 1)
    ensures |a| == |Cropped(fut)|
    ensures forall p :: 0 <= p < |a| ==> a[p] == CorrectedEntry(obs, hist, fut, quantiles, Cropped(fut)[p])
  {
    var crop := Cropped(fut);
    assert forall p :: 0 <= p < |a| ==> Done(fut[crop[p]], LastYear + 1, 1);
  }

  /**
    One iteration of the inner loop: correct calendar month `month` over the
    rolling window of `year` and write back the corrected values of `year`.
  */
  method CorrectMonth(corrected: array<Option<real>>, obs: Series, hist: Series, fut: Series,
                      quantiles: (seq<real>, seq<real>) -> seq<real>, roll: seq<nat>, year: int, month: Month)
    requires Qdm.IsEstimator(quantiles) && FirstYear <= year <= LastYear && roll == Roll(fut, year)
    requires Progress(obs, hist, fut, quantiles, corrected[..], year, month)
    modifies corrected
    ensures Progress(obs, hist, fut, quantiles, corrected[..], year, month + 1)
  {
    var crop := Cropped(fut);
    var w := Select(fut, roll, MonthIs(month));
    var windowCorrected := Qdm.Correct(MonthSample(obs, month), MonthSample(hist, month), Values(Sub(fut, w)), quantiles);
    assert windowCorrected == WindowCorrected(obs, hist, fut, quantiles, year, month);
    var targets := Positions(fut, crop, YearMonthIs(year, month));
    var sources := Positions(fut, w, YearIs(year));
    AlignedWriteBack(fut, year, month);
    var vals := seq(|sources|, k requires 0 <= k < |sources| => windowCorrected[sources[k]]);
    ghost var before := corrected[..];
    WriteBack(corrected, targets, vals);
    MonthStep(obs, hist, fut, quantiles, before, corrected[..], year, month, targets, sources);
  }

  /**
    The scheduler: start from a copy of the cropped future series, run the
    correction for every (year, month) and write back that year's values,
    then floor. The result is Expected: each output entry carries the floored
    value of its own window correction, written once.
  */
  method CorrectFullTimeseries(obs: Series, hist: Series, fut: Series,
                               quantiles: (seq<real>, seq<real>) -> seq<real>) returns (out: Series)
    requires Qdm.IsEstimator(quantiles)
    ensures out == Expected(obs, hist, fut, quantiles)
  {
    var crop := Cropped(fut);
    var corrected := new Option<real>[|crop|](p requires 0 <= p < |crop| => Some(fut[crop[p]].value));
    ProgressStart(obs, hist, fut, quantiles, corrected[..]);
    for year := FirstYear to LastYear + 1
      invariant Progress(obs, hist, fut, quantiles, corrected[..], year, 1)
    {
      var roll := Roll(fut, year);
      for month := 1 to 13
        invariant Progress(obs, hist, fut, quantiles, corrected[..], year, month)
      {
        CorrectMonth(corrected, obs, hist, fut, quantiles, roll, year, month);
      }
      ProgressNextYear(obs, hist, fut, quantiles, corrected[..], year);
    }
    var finals := corrected[..];
    ProgressFinished(obs, hist, fut, quantiles, finals);
    out := seq(|crop|, p requires 0 <= p < |crop| =>
      Record(fut[crop[p]].year, fut[crop[p]].month, Conditioning.FloorNearZero(finals[p])));
  }

  /** Each output entry is targeted by exactly one iteration: the one of its own year and month. */
  lemma WrittenOnce(fut: Series, p: nat, year: int, m: Month)
    requires p < |Cropped(fut)|
    ensures var crop := Cropped(fut);
      p in Positions(fut, crop, YearMonthIs(year, m)) <==> fut[crop[p]].year == year && fut[crop[p]].month == m
  {
    var crop := Cropped(fut);
    var targets := Positions(fut, crop, YearMonthIs(year, m));
    if p in targets {
      var k :| 0 <= k < |targets| && targets[k] == p;
      assert Matches(fut[crop[targets[k]]], YearMonthIs(year, m));
    }
  }

  /** The data record holds calendar month m of year y. */
  predicate HasDate(fut: Series, y: int, m: Month) {
    exists i :: 0 <= i < |fut| && fut[i].year == y && fut[i].month == m
  }

  /** The years present in a sub-series. */
  function YearsOf(fut: Series, idx: seq<nat>): set<int>
    requires IndexesInto(idx, fut)
  {
    set k | 0 <= k < |idx| :: fut[idx[k]].year
  }

  /** The consecutive years lo to hi. */
  function YearRange(lo: int, hi: int): (r: set<int>)
    ensures forall y :: y in r <==> lo <= y <= hi
    decreases hi - lo
  {
    if hi < lo then {} else YearRange(lo, hi - 1) + {hi}
  }

  /** A run of consecutive years holds hi - lo + 1 of them. */
  lemma {:induction false} YearRangeSize(lo: int, hi: int)
    requires lo <= hi + 1
    ensures |YearRange(lo, hi)| == hi - lo + 1
    decreases hi - lo
  {
    if lo <= hi {
      YearRangeSize(lo, hi - 1);
      assert hi !in YearRange(lo, hi - 1);
    }
  }

  /** A set holding exactly the years lo to hi has hi - lo + 1 members. */
  lemma RangeSize(a: set<int>, lo: int, hi: int)
    requires lo <= hi + 1
    requires forall y :: y in a <==> lo <= y <= hi
    ensures |a| == hi - lo + 1
  {
    assert a == YearRange(lo, hi);
    YearRangeSize(lo, hi);
  }

  /** The last year of the window of a target year: 19 years on, but no later than the last target year. */
  function WindowEnd(year: int): (hi: int)
    ensures hi <= year + HalfWindow && hi <= LastYear
    ensures hi == year + HalfWindow || hi == LastYear
  {
    if year + HalfWindow <= LastYear then year + HalfWindow else LastYear
  }

  /**
    The rolling window of a target year: on a complete record from the first
    data year to the last target year, the window of any calendar month holds
    exactly the years from year - 19 up to year + 19, cut off at the last
    target year, and never reaches before the data start.
  */
  lemma WindowYears(fut: Series, year: int, m: Month)
    requires FirstYear <= year <= LastYear
    requires forall i :: 0 <= i < |fut| ==> DataStart <= fut[i].year <= LastYear
    requires forall y :: DataStart <= y <= LastYear ==> HasDate(fut, y, m)
    ensures DataStart <= year - HalfWindow
    ensures forall y :: y in YearsOf(fut, Window(fut, year, m)) <==> year - HalfWindow <= y <= WindowEnd(year)
  {
    var w := Window(fut, year, m);
    forall y ensures y in YearsOf(fut, w) <==> year - HalfWindow <= y <= WindowEnd(year) {
      if year - HalfWindow <= y <= WindowEnd(year) {
        YearInWindow(fut, year, m, y);
      }
      if y in YearsOf(fut, w) {
        WindowYearInRange(fut, year, m, y);
      }
    }
  }

  /** Every year of the window lies within the window's range and the data. */
  lemma WindowYearInRange(fut: Series, year: int, m: Month, y: int)
    requires forall i :: 0 <= i < |fut| ==> fut[i].year <= LastYear
    requires y in YearsOf(fut, Window(fut, year, m))
    ensures year - HalfWindow <= y <= year + HalfWindow && y <= LastYear
  {
    var w := Window(fut, year, m);
    var k :| 0 <= k < |w| && fut[w[k]].year == y;
    assert w[k] in w;
  }

  /** On a complete record, a year of the window's range is present in the window. */
  lemma YearInWindow(fut: Series, year: int, m: Month, y: int)
    requires FirstYear <= year && year - HalfWindow <= y <= year + HalfWindow && y <= LastYear
    requires forall y :: DataStart <= y <= LastYear ==> HasDate(fut, y, m)
    ensures y in YearsOf(fut, Window(fut, year, m))
  {
    var w := Window(fut, year, m);
    assert HasDate(fut, y, m);
    var i :| 0 <= i < |fut| && fut[i].year == y && fut[i].month == m;
    assert i in w;
    var k := IndexOf(w, i);
    assert fut[w[k]].year == y;
  }

  /** The window spans the full 39 years up to the target year 2081 and is cut short after it. */
  lemma WindowSpan(fut: Series, year: int, m: Month)
    requires FirstYear <= year <= LastYear
    requires forall i :: 0 <= i < |fut| ==> DataStart <= fut[i].year <= LastYear
    requires forall y :: DataStart <= y <= LastYear ==> HasDate(fut, y, m)
    ensures year <= LastYear - HalfWindow ==> |YearsOf(fut, Window(fut, year, m))| == 2 * HalfWindow + 1
    ensures LastYear - HalfWindow < year ==> |YearsOf(fut, Window(fut, year, m))| == LastYear - year + HalfWindow + 1
  {
    WindowYears(fut, year, m);
    RangeSize(YearsOf(fut, Window(fut, year, m)), year - HalfWindow, WindowEnd(year));
  }

  /**
    Same reference and historical data: the scheduler leaves every value it
    does not set to 0 as it was in the future series.
  */
  lemma SameClimatologyKeepsValues(obs: Series, fut: Series, quantiles: (seq<real>, seq<real>) -> seq<real>)
    requires Qdm.IsEstimator(quantiles)
    ensures var out, crop := Expected(obs, obs, fut, quantiles), Cropped(fut);
      forall p :: 0 <= p < |out| ==> out[p].value == 0.0 || out[p].value == fut[crop[p]].value
  {
    var out, crop := Expected(obs, obs, fut, quantiles), Cropped(fut);
    forall p | 0 <= p < |out| ensures out[p].value == 0.0 || out[p].value == fut[crop[p]].value {
      var i := crop[p];
      var w := Window(fut, fut[i].year, fut[i].month);
      var sample := Values(Sub(fut, w));
      var k := IndexOf(w, i);
      Qdm.CorrectSameClimatology(MonthSample(obs, fut[i].month), sample, quantiles);
      assert sample[k] == fut[i].value;
      var e := CorrectedEntry(obs, obs, fut, quantiles, i);
      assert e.Some? ==> e.value == fut[i].value;
      assert out[p].value == Conditioning.FloorNearZero(e);
    }
  }
}
