/** Order statistics of a series as pandas computes them: min, max and
    the p-quantile with linear interpolation between order statistics. */
module Quantile {
  import opened Wrappers
  import opened Sorting
  import opened GiniIndex

  /** The least element of a non-empty sequence. */
  function Min(s: seq<real>): (m: real)
    requires |s| > 0
    ensures m in s
    ensures forall i :: 0 <= i < |s| ==> m <= s[i]
  {
    if |s| == 1 then s[0]
    else
      var rest := Min(s[1..]);
      assert forall i :: 1 <= i < |s| ==> s[i] == s[1..][i - 1];
      if s[0] <= rest then s[0] else rest
  }

  /** The greatest element of a non-empty sequence. */
  function Max(s: seq<real>): (m: real)
    requires |s| > 0
    ensures m in s
    ensures forall i :: 0 <= i < |s| ==> s[i] <= m
  {
    if |s| == 1 then s[0]
    else
      var rest := Max(s[1..]);
      assert forall i :: 1 <= i < |s| ==> s[i] == s[1..][i - 1];
      if s[0] >= rest then s[0] else rest
  }

  /** The value at fractional position `pos` of the sorted values x: the
      order statistic below it plus the fractional part of the step to the next. */
  function Interpolate(x: seq<real>, pos: real): (q: real)
    requires Sorted(x) && |x| > 0 && 0.0 <= pos <= (|x| - 1) as real
    ensures x[0] <= q <= x[|x| - 1]
    ensures pos.Floor + 1 < |x| ==> x[pos.Floor] <= q <= x[pos.Floor + 1]
    ensures pos.Floor + 1 >= |x| ==> q == x[|x| - 1]
    ensures pos == pos.Floor as real ==> q == x[pos.Floor]
  {
    var lo := pos.Floor;
    var frac := pos - lo as real;
    if lo + 1 < |x| then
      InterpolateBetween(x[lo], x[lo + 1], frac);
      var q := Lerp(x[lo], x[lo + 1], frac);
      assert x[lo] <= q <= x[lo + 1];
      assert x[0] <= x[lo];
      assert x[lo + 1] <= x[|x| - 1];
      q
    else x[lo]
  }

  /** The fractional position of quantile p among m sorted values. */
  function Position(m: nat, p: real): real
  {
    (m - 1) as real * p
  }

  /** The p-quantile of sorted values: linear interpolation at position (m-1)*p. */
  function QuantileSorted(x: seq<real>, p: real): (q: real)
    requires Sorted(x) && |x| > 0 && 0.0 <= p <= 1.0
    ensures x[0] <= q <= x[|x| - 1]
  {
    PositionInRange(|x|, p);
    Interpolate(x, Position(|x|, p))
  }

  lemma PositionInRange(m: nat, p: real)
    requires m > 0 && 0.0 <= p <= 1.0
    ensures 0.0 <= Position(m, p) <= (m - 1) as real
  {
    var c := (m - 1) as real;
    assert c >= 0.0;
    ScaleWithin(c, p);
    assert Position(m, p) == c * p;
  }

  /** Scaling by a fraction in [0, 1] stays between 0 and the scale. */
  lemma ScaleWithin(c: real, p: real)
    requires c >= 0.0 && 0.0 <= p <= 1.0
    ensures 0.0 <= c * p <= c
  {
    assert c * p <= c * 1.0 by {
      MultiplyMonotone(c, p, 1.0);
    }
    assert c * 1.0 == c;
    assert 0.0 <= c * p by {
      MultiplyMonotone(c, 0.0, p);
      assert c * 0.0 == 0.0;
    }
  }

  lemma PositionMonotone(m: nat, p: real, p': real)
    requires m > 0 && 0.0 <= p <= p' <= 1.0
    ensures Position(m, p) <= Position(m, p')
  {
    MultiplyMonotone((m - 1) as real, p, p');
  }

  lemma MultiplyMonotone(c: real, a: real, b: real)
    requires c >= 0.0 && a <= b
    ensures c * a <= c * b
  {
    assert c * b - c * a == c * (b - a);
    assert b - a >= 0.0;
  }

  /** The point a fraction t of the way from a to b. */
  function Lerp(a: real, b: real, t: real): real
  {
    a + t * (b - a)
  }

  lemma InterpolateBetween(a: real, b: real, t: real)
    requires a <= b && 0.0 <= t < 1.0
    ensures a <= Lerp(a, b, t) <= b
  {
    MultiplyMonotone(b - a, t, 1.0);
    MultiplyMonotone(b - a, 0.0, t);
  }

  lemma LerpMonotone(a: real, b: real, t: real, t': real)
    requires a <= b && t <= t'
    ensures Lerp(a, b, t) <= Lerp(a, b, t')
  {
    MultiplyMonotone(b - a, t, t');
    assert t * (b - a) == (b - a) * t && t' * (b - a) == (b - a) * t';
  }

  lemma FloorMonotone(a: real, b: real)
    requires a <= b
    ensures a.Floor <= b.Floor
  {
    assert a.Floor as real <= a;
    assert b < b.Floor as real + 1.0;
  }

  /** Within one step between order statistics interpolation is monotone. */
  lemma InterpolateSameStep(x: seq<real>, a: real, b: real)
    requires Sorted(x) && |x| > 0 && 0.0 <= a <= b <= (|x| - 1) as real
    requires a.Floor == b.Floor && a.Floor + 1 < |x|
    ensures Interpolate(x, a) <= Interpolate(x, b)
  {
    var lo := a.Floor;
    assert Interpolate(x, a) == Lerp(x[lo], x[lo + 1], a - lo as real);
    assert Interpolate(x, b) == Lerp(x[lo], x[lo + 1], b - lo as real);
    LerpMonotone(x[lo], x[lo + 1], a - lo as real, b - lo as real);
  }

  lemma InterpolateMonotone(x: seq<real>, a: real, b: real)
    requires Sorted(x) && |x| > 0 && 0.0 <= a <= b <= (|x| - 1) as real
    ensures Interpolate(x, a) <= Interpolate(x, b)
  {
    FloorMonotone(a, b);
    FloorMonotone(b, (|x| - 1) as real);
    assert ((|x| - 1) as real).Floor == |x| - 1;
    if a.Floor < b.Floor {
      assert Interpolate(x, a) <= x[a.Floor + 1];
      if b.Floor + 1 < |x| {
        assert x[a.Floor + 1] <= x[b.Floor];
        assert x[b.Floor] <= Interpolate(x, b);
      } else {
        assert x[a.Floor + 1] <= x[|x| - 1];
        assert Interpolate(x, b) == x[|x| - 1];
      }
    } else if a.Floor + 1 < |x| {
      InterpolateSameStep(x, a, b);
    } else {
      assert Interpolate(x, a) == x[|x| - 1];
      assert Interpolate(x, b) == x[|x| - 1];
    }
  }

  /** On each step [lo, lo+1] between neighbouring order statistics the
      value is the straight line through them: x[lo] + (pos - lo) * (x[lo+1] - x[lo]). */
  lemma InterpolateLinear(x: seq<real>, lo: nat, pos: real)
    requires Sorted(x) && lo + 1 < |x| && lo as real <= pos <= (lo + 1) as real
    ensures Interpolate(x, pos) == x[lo] + (pos - lo as real) * (x[lo + 1] - x[lo])
  {
    if pos < (lo + 1) as real {
      assert pos.Floor == lo;
      assert Interpolate(x, pos) == Lerp(x[lo], x[lo + 1], pos - lo as real);
    } else {
      assert pos == (lo + 1) as real;
      assert pos.Floor == lo + 1;
      assert Interpolate(x, pos) == x[lo + 1];
      assert (pos - lo as real) == 1.0;
    }
  }

  /** Quantiles grow with p. */
  lemma QuantileMonotone(x: seq<real>, p: real, p': real)
    requires Sorted(x) && |x| > 0 && 0.0 <= p <= p' <= 1.0
    ensures QuantileSorted(x, p) <= QuantileSorted(x, p')
  {
    PositionInRange(|x|, p);
    PositionInRange(|x|, p');
    PositionMonotone(|x|, p, p');
    InterpolateMonotone(x, Position(|x|, p), Position(|x|, p'));
  }

  /** p = 0 is the minimum and p = 1 the maximum. */
  lemma QuantileEnds(x: seq<real>)
    requires Sorted(x) && |x| > 0
    ensures QuantileSorted(x, 0.0) == x[0] == Min(x)
    ensures QuantileSorted(x, 1.0) == x[|x| - 1] == Max(x)
  {
    assert x[0] <= Min(x) && x[|x| - 1] >= Max(x);
  }

  /** The p-quantile of a series: missing values skipped, NaN (None) for an empty series. */
  function SeriesQuantile(vals: seq<Option<real>>, p: real): (q: Option<real>)
    requires 0.0 <= p <= 1.0
    ensures q.Some? <==> |Present(vals)| > 0
  {
    var x := Sort(Present(vals));
    if |x| == 0 then None else Some(QuantileSorted(x, p))
  }

  function SeriesMin(vals: seq<Option<real>>): (m: Option<real>)
    ensures m.Some? <==> |Present(vals)| > 0
  {
    var x := Present(vals);
    if |x| == 0 then None else Some(Min(x))
  }

  function SeriesMax(vals: seq<Option<real>>): (m: Option<real>)
    ensures m.Some? <==> |Present(vals)| > 0
  {
    var x := Present(vals);
    if |x| == 0 then None else Some(Max(x))
  }

  /** The minimum of a sequence is the head of its ascending arrangement. */
  lemma MinIsSortedHead(s: seq<real>)
    requires |s| > 0
    ensures Sort(s)[0] == Min(s)
  {
    var x := Sort(s);
    assert Min(s) in multiset(s);
    SortedHeadIsLeast(x, Min(s));
    assert x[0] in multiset(x);
    assert x[0] in s;
  }

  /** The maximum of a sequence is the last of its ascending arrangement. */
  lemma MaxIsSortedLast(s: seq<real>)
    requires |s| > 0
    ensures Sort(s)[|s| - 1] == Max(s)
  {
    var x := Sort(s);
    assert Max(s) in multiset(s);
    SortedLastIsGreatest(x, Max(s));
    assert x[|x| - 1] in multiset(x);
    assert x[|x| - 1] in s;
  }

  /** min <= p25 <= median <= p75 <= max, with min and max at p = 0 and p = 1. */
  lemma SeriesOrderStatistics(vals: seq<Option<real>>)
    requires |Present(vals)| > 0
    ensures SeriesMin(vals).value == SeriesQuantile(vals, 0.0).value
    ensures SeriesMax(vals).value == SeriesQuantile(vals, 1.0).value
    ensures SeriesMin(vals).value <= SeriesQuantile(vals, 0.25).value <= SeriesQuantile(vals, 0.5).value
      <= SeriesQuantile(vals, 0.75).value <= SeriesMax(vals).value
  {
    var x := Sort(Present(vals));
    MinIsSortedHead(Present(vals));
    MaxIsSortedLast(Present(vals));
    QuantileEnds(x);
    QuantileMonotone(x, 0.0, 0.25);
    QuantileMonotone(x, 0.25, 0.5);
    QuantileMonotone(x, 0.5, 0.75);
    QuantileMonotone(x, 0.75, 1.0);
  }

  lemma FourPointSorted()
    ensures Sort(Present([Some(1.0), Some(2.0), Some(3.0), Some(4.0)])) == [1.0, 2.0, 3.0, 4.0]
  {
    var x := [1.0, 2.0, 3.0, 4.0];
    assert Present([Some(1.0), Some(2.0), Some(3.0), Some(4.0)]) == x by {
      assert [Some(1.0), Some(2.0), Some(3.0), Some(4.0)][1..] == [Some(2.0), Some(3.0), Some(4.0)];
      assert [Some(2.0), Some(3.0), Some(4.0)][1..] == [Some(3.0), Some(4.0)];
      assert [Some(3.0), Some(4.0)][1..] == [Some(4.0)];
    }
    assert Sorted(x);
    SortedUnique(Sort(x), x);
  }

  /** A quantile of 1, 2, 3, 4 is that of the sorted values. */
  lemma FourPointSeries(p: real)
    requires 0.0 <= p <= 1.0
    ensures SeriesQuantile([Some(1.0), Some(2.0), Some(3.0), Some(4.0)], p) == Some(QuantileSorted([1.0, 2.0, 3.0, 4.0], p))
  {
    FourPointSorted();
  }

  /** The median of 1, 2, 3, 4 is 2.5, halfway between the middle values. */
  lemma MedianExample()
    ensures SeriesQuantile([Some(1.0), Some(2.0), Some(3.0), Some(4.0)], 0.5) == Some(2.5)
  {
    FourPointSeries(0.5);
    FourPointMedian();
  }

  lemma FourPointMedian()
    ensures QuantileSorted([1.0, 2.0, 3.0, 4.0], 0.5) == 2.5
  {
    var x := [1.0, 2.0, 3.0, 4.0];
    assert Position(4, 0.5) == 1.5;
    InterpolateLinear(x, 1, 1.5);
    assert x[1] == 2.0 && x[2] == 3.0;
  }

  /** The 25th percentile of 1, 2, 3, 4 is 1.75, three quarters of the way from 1 to 2. */
  lemma LowerQuartileExample()
    ensures SeriesQuantile([Some(1.0), Some(2.0), Some(3.0), Some(4.0)], 0.25) == Some(1.75)
  {
    FourPointSeries(0.25);
    FourPointLowerQuartile();
  }

  lemma FourPointLowerQuartile()
    ensures QuantileSorted([1.0, 2.0, 3.0, 4.0], 0.25) == 1.75
  {
    var x := [1.0, 2.0, 3.0, 4.0];
    assert Position(4, 0.25) == 0.75;
    InterpolateLinear(x, 0, 0.75);
    assert x[0] == 1.0 && x[1] == 2.0;
  }
}
