/**
  Piecewise-linear interpolation through a table of knots, as built by
  `interp1d(knots, values, kind='linear', bounds_error=False)`: inside the
  knot range the value is read off the segment that brackets the argument,
  outside it the result is missing.
*/
module Interpolation {
  import opened Wrappers

  /** Knots never go down (ties allowed), as in a vector of quantiles. */
  predicate NonDecreasing(s: seq<real>) {
    forall i, j :: 0 <= i <= j < |s| ==> s[i] <= s[j]
  }

  predicate StrictlyIncreasing(s: seq<real>) {
    forall i, j :: 0 <= i < j < |s| ==> s[i] < s[j]
  }

  /** Every element multiplied by k. */
  function Scaled(k: real, s: seq<real>): seq<real> {
    seq(|s|, i requires 0 <= i < |s| => k * s[i])
  }

  /**
    The number of knots at or below x. Since the knots are sorted this is
    the position the binary search of the linear interpolator finds: the
    knots before it are <= x and the ones from it on are > x.
  */
  function UpperIndex(xs: seq<real>, x: real): (k: nat)
    requires NonDecreasing(xs)
    ensures k <= |xs|
    ensures forall j :: 0 <= j < k ==> xs[j] <= x
    ensures forall j :: k <= j < |xs| ==> x < xs[j]
  {
    if xs == [] || x < xs[0] then 0 else 1 + UpperIndex(xs[1..], x)
  }

  /**
    The segment that brackets x inside the knot range: its left knot is at
    or below x and, unless x is the last knot, its right knot is above x.
  */
  function Segment(xs: seq<real>, x: real): (j: nat)
    requires |xs| >= 2 && NonDecreasing(xs) && xs[0] <= x <= xs[|xs| - 1]
    ensures j < |xs| && xs[j] <= x
    ensures j < |xs| - 1 ==> x < xs[j + 1]
    ensures j == |xs| - 1 ==> x == xs[j]
  {
    var k := UpperIndex(xs, x);
    assert xs[0] <= x;
    k - 1
  }

  /** The point above x on the line through (x0, y0) and (x1, y1): slope times offset plus y0. */
  function Lerp(x0: real, x1: real, y0: real, y1: real, x: real): (r: real)
    requires x0 < x1
    ensures x == x0 ==> r == y0
    ensures x == x1 ==> r == y1
  {
    (y1 - y0) / (x1 - x0) * (x - x0) + y0
  }

  /**
    Linear interpolation of the table (xs, ys) at x. Outside [xs[0], xs[last]]
    the result is missing (the fill value NaN); at the last knot it is the
    last value; otherwise xs[j] <= x < xs[j + 1] for the segment j found by
    the search, and the value lies on the line through its two end points.
  */
  function Interp(xs: seq<real>, ys: seq<real>, x: real): (r: Option<real>)
    requires |xs| == |ys| >= 2 && NonDecreasing(xs)
    ensures r.Some? <==> xs[0] <= x <= xs[|xs| - 1]
  {
    if x < xs[0] || xs[|xs| - 1] < x then None
    else
      var j := Segment(xs, x);
      if j == |xs| - 1 then Some(ys[j])
      else Some(Lerp(xs[j], xs[j + 1], ys[j], ys[j + 1], x))
  }

  /** A point of a segment between its end points lies between their values. */
  lemma LerpBetween(x0: real, x1: real, y0: real, y1: real, x: real)
    requires x0 < x1 && x0 <= x <= x1
    ensures y0 <= y1 ==> y0 <= Lerp(x0, x1, y0, y1, x) <= y1
    ensures y1 <= y0 ==> y1 <= Lerp(x0, x1, y0, y1, x) <= y0
  {
    var u, c := (x - x0) / (x1 - x0), y1 - y0;
    FractionOfSpan(x0, x1, x);
    LerpAsFraction(x0, x1, y0, y1, x);
    PartOf(c, u);
    assert Lerp(x0, x1, y0, y1, x) == c * u + y0;
  }

  /** The point at x is y0 plus the same fraction of y1 - y0 as x is of the span. */
  lemma LerpAsFraction(x0: real, x1: real, y0: real, y1: real, x: real)
    requires x0 < x1
    ensures Lerp(x0, x1, y0, y1, x) == (y1 - y0) * ((x - x0) / (x1 - x0)) + y0
  {
  }

  /** The offset of x into [x0, x1], as a fraction of the span, lies in [0, 1]. */
  lemma FractionOfSpan(x0: real, x1: real, x: real)
    requires x0 < x1 && x0 <= x <= x1
    ensures 0.0 <= (x - x0) / (x1 - x0) <= 1.0
  {
    var d := x1 - x0;
    var u := (x - x0) / d;
    assert u * d == x - x0;
  }

  /** A fraction u in [0, 1] of c lies between 0 and c. */
  lemma PartOf(c: real, u: real)
    requires 0.0 <= u <= 1.0
    ensures 0.0 <= c ==> 0.0 <= c * u <= c
    ensures c <= 0.0 ==> c <= c * u <= 0.0
  {
    assert c * u + c * (1.0 - u) == c;
    if 0.0 <= c {
      MulNonNegative(c, u);
      MulNonNegative(c, 1.0 - u);
    } else {
      MulNonNegative(-c, u);
      MulNonNegative(-c, 1.0 - u);
      assert (-c) * u == -(c * u);
      assert (-c) * (1.0 - u) == -(c * (1.0 - u));
    }
  }

  lemma MulNonNegative(a: real, b: real)
    requires 0.0 <= a && 0.0 <= b
    ensures 0.0 <= a * b
  {
  }

  /** Scaling both end values scales every point of the segment. */
  lemma LerpScaled(x0: real, x1: real, y0: real, y1: real, z0: real, z1: real, x: real, k: real)
    requires x0 < x1 && z0 == k * y0 && z1 == k * y1
    ensures Lerp(x0, x1, z0, z1, x) == k * Lerp(x0, x1, y0, y1, x)
  {
    assert (z1 - z0) / (x1 - x0) == k * ((y1 - y0) / (x1 - x0));
  }

  /** The segment from (x0, x0) to (x1, x1) is the diagonal. */
  lemma LerpDiagonal(x0: real, x1: real, x: real)
    requires x0 < x1
    ensures Lerp(x0, x1, x0, x1, x) == x
  {
    assert (x1 - x0) / (x1 - x0) == 1.0;
  }

  /** On one segment the map rises (or stays level) with x when its right value is not below its left. */
  lemma LerpMonotone(x0: real, x1: real, y0: real, y1: real, a: real, b: real)
    requires x0 < x1 && y0 <= y1 && a <= b
    ensures Lerp(x0, x1, y0, y1, a) <= Lerp(x0, x1, y0, y1, b)
  {
    var s := (y1 - y0) / (x1 - x0);
    assert 0.0 <= s;
    MulNonNegative(s, b - a);
    assert s * (b - x0) - s * (a - x0) == s * (b - a);
    assert Lerp(x0, x1, y0, y1, a) == s * (a - x0) + y0;
    assert Lerp(x0, x1, y0, y1, b) == s * (b - x0) + y0;
  }

  /** Evaluating at a knot returns the value paired with that knot. */
  lemma InterpAtKnot(xs: seq<real>, ys: seq<real>, i: nat)
    requires |xs| == |ys| >= 2 && StrictlyIncreasing(xs) && i < |xs|
    ensures Interp(xs, ys, xs[i]) == Some(ys[i])
  {
    var j := Segment(xs, xs[i]);
    assert j == i;
  }

  /** Interpolation is linear in the value table: scaling the values scales the result. */
  lemma InterpScaled(xs: seq<real>, ys: seq<real>, k: real, x: real)
    requires |xs| == |ys| >= 2 && NonDecreasing(xs)
    ensures Interp(xs, Scaled(k, ys), x).Some? <==> Interp(xs, ys, x).Some?
    ensures Interp(xs, ys, x).Some? ==> Interp(xs, Scaled(k, ys), x).value == k * Interp(xs, ys, x).value
  {
    if xs[0] <= x <= xs[|xs| - 1] {
      var j := Segment(xs, x);
      var zs := Scaled(k, ys);
      assert zs[j] == k * ys[j];
      if j < |xs| - 1 {
        assert zs[j + 1] == k * ys[j + 1];
        ScaledOnSegment(xs, ys, zs, k, x, j);
      } else {
        InterpAtLast(xs, ys, x);
        InterpAtLast(xs, zs, x);
      }
    }
  }

  /** Inside a segment whose end values are scaled by k the interpolated value is scaled by k. */
  lemma ScaledOnSegment(xs: seq<real>, ys: seq<real>, zs: seq<real>, k: real, x: real, j: nat)
    requires |xs| == |ys| == |zs| >= 2 && NonDecreasing(xs) && xs[0] <= x <= xs[|xs| - 1]
    requires j == Segment(xs, x) && j < |xs| - 1
    requires zs[j] == k * ys[j] && zs[j + 1] == k * ys[j + 1]
    ensures Interp(xs, zs, x).value == k * Interp(xs, ys, x).value
  {
    InterpOnSegment(xs, ys, x, j);
    InterpOnSegment(xs, zs, x, j);
    LerpScaled(xs[j], xs[j + 1], ys[j], ys[j + 1], zs[j], zs[j + 1], x, k);
  }

  /** Inside a segment the interpolated value is the point on that segment's line. */
  lemma InterpOnSegment(xs: seq<real>, ys: seq<real>, x: real, j: nat)
    requires |xs| == |ys| >= 2 && NonDecreasing(xs) && xs[0] <= x <= xs[|xs| - 1]
    requires j == Segment(xs, x) && j < |xs| - 1
    ensures Interp(xs, ys, x).value == Lerp(xs[j], xs[j + 1], ys[j], ys[j + 1], x)
  {
  }

  /** At the last knot the interpolated value is the last value. */
  lemma InterpAtLast(xs: seq<real>, ys: seq<real>, x: real)
    requires |xs| == |ys| >= 2 && NonDecreasing(xs) && xs[0] <= x <= xs[|xs| - 1]
    requires Segment(xs, x) == |xs| - 1
    ensures Interp(xs, ys, x).value == ys[|xs| - 1]
  {
  }

  /** Interpolating a table against itself is the identity on the knot range. */
  lemma InterpSelf(xs: seq<real>, x: real)
    requires |xs| >= 2 && NonDecreasing(xs) && xs[0] <= x <= xs[|xs| - 1]
    ensures Interp(xs, xs, x) == Some(x)
  {
    var j := Segment(xs, x);
    if j < |xs| - 1 {
      LerpDiagonal(xs[j], xs[j + 1], x);
    }
  }

  /** The interpolated value lies within any bounds that hold for every tabulated value. */
  lemma InterpBounded(xs: seq<real>, ys: seq<real>, x: real, lo: real, hi: real)
    requires |xs| == |ys| >= 2 && NonDecreasing(xs)
    requires forall i :: 0 <= i < |ys| ==> lo <= ys[i] <= hi
    ensures Interp(xs, ys, x).Some? ==> lo <= Interp(xs, ys, x).value <= hi
  {
    if xs[0] <= x <= xs[|xs| - 1] {
      var j := Segment(xs, x);
      if j < |xs| - 1 {
        LerpBetween(xs[j], xs[j + 1], ys[j], ys[j + 1], x);
      }
    }
  }

  /** With positive tabulated values every defined interpolated value is positive. */
  lemma InterpPositive(xs: seq<real>, ys: seq<real>, x: real)
    requires |xs| == |ys| >= 2 && NonDecreasing(xs)
    requires forall i :: 0 <= i < |ys| ==> 0.0 < ys[i]
    ensures Interp(xs, ys, x).Some? ==> 0.0 < Interp(xs, ys, x).value
  {
    if xs[0] <= x <= xs[|xs| - 1] {
      var j := Segment(xs, x);
      if j < |xs| - 1 {
        LerpBetween(xs[j], xs[j + 1], ys[j], ys[j + 1], x);
      }
    }
  }

  /** With non-decreasing values the interpolant is a monotone map. */
  lemma InterpMonotone(xs: seq<real>, ys: seq<real>, x1: real, x2: real)
    requires |xs| == |ys| >= 2 && NonDecreasing(xs) && NonDecreasing(ys)
    requires xs[0] <= x1 <= x2 <= xs[|xs| - 1]
    ensures Interp(xs, ys, x1).value <= Interp(xs, ys, x2).value
  {
    var n := |xs|;
    var j1, j2 := Segment(xs, x1), Segment(xs, x2);
    if j1 == j2 {
      if j1 < n - 1 {
        LerpMonotone(xs[j1], xs[j1 + 1], ys[j1], ys[j1 + 1], x1, x2);
      }
    } else {
      assert j1 < j2;
      LerpBetween(xs[j1], xs[j1 + 1], ys[j1], ys[j1 + 1], x1);
      assert Interp(xs, ys, x1).value <= ys[j1 + 1] <= ys[j2];
      if j2 < n - 1 {
        LerpBetween(xs[j2], xs[j2 + 1], ys[j2], ys[j2 + 1], x2);
      }
    }
  }
}
