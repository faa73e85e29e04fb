/** The Gini coefficient of a series (gini.py:3-15): missing values dropped,
    values sorted, Lorenz ordinates from cumulative sums, trapezoid rule. */
module GiniIndex {
  import opened Wrappers
  import opened Sorting

  function Sum(s: seq<real>): real
  {
    if |s| == 0 then 0.0 else Sum(s[..|s| - 1]) + s[|s| - 1]
  }

  /** The non-missing entries, in order (gini.py:12). */
  function Present(vals: seq<Option<real>>): (r: seq<real>)
    ensures |r| <= |vals|
  {
    if |vals| == 0 then []
    else
      assert vals == [vals[0]] + vals[1..];
      (if vals[0].Some? then [vals[0].value] else []) + Present(vals[1..])
  }

  lemma {:induction false} PresentAppend(a: seq<Option<real>>, b: seq<Option<real>>)
    ensures Present(a + b) == Present(a) + Present(b)
    decreases |a|
  {
    if |a| == 0 {
      assert a + b == b;
    } else {
      assert (a + b)[0] == a[0];
      assert (a + b)[1..] == a[1..] + b;
      PresentAppend(a[1..], b);
    }
  }

  /** Lorenz ordinates w_0 = 0, w_i = (y_0 + ... + y_{i-1}) / total (line 13). */
  function Lorenz(y: seq<real>): (w: seq<real>)
    requires Sum(y) != 0.0
    ensures |w| == |y| + 1
    ensures w[0] == 0.0 && w[|y|] == 1.0
    ensures forall i :: 0 <= i <= |y| ==> w[i] * Sum(y) == Sum(y[..i])
  {
    var w := seq(|y| + 1, i requires 0 <= i <= |y| => Sum(y[..i]) / Sum(y));
    assert y[..|y|] == y;
    ShareTimesTotal(y);
    DivSelf(Sum(y));
    w
  }

  /** Each prefix share times the total gives the prefix sum back. */
  lemma ShareTimesTotal(y: seq<real>)
    requires Sum(y) != 0.0
    ensures forall i :: 0 <= i <= |y| ==> (Sum(y[..i]) / Sum(y)) * Sum(y) == Sum(y[..i])
  {
    forall i | 0 <= i <= |y|
      ensures (Sum(y[..i]) / Sum(y)) * Sum(y) == Sum(y[..i])
    {
      DivTimes(Sum(y[..i]), Sum(y));
    }
  }

  lemma DivTimes(a: real, t: real)
    requires t != 0.0
    ensures (a / t) * t == a
  {
  }

  lemma DivSelf(t: real)
    requires t != 0.0
    ensures t / t == 1.0
  {
  }

  /** (w_i + w_{i+1})/n + ... + (w_{n-1} + w_n)/n: the sum of line 15 from term i on. */
  function Trapezoid(w: seq<real>, i: nat): real
    requires |w| >= 2 && i < |w|
    decreases |w| - i
  {
    if i == |w| - 1 then 0.0
    else (1.0 / (|w| - 1) as real) * (w[i] + w[i + 1]) + Trapezoid(w, i + 1)
  }

  /** The coefficient of an already sorted, non-missing series. An empty
      series gives 1 (the sum of line 15 is empty); a zero total leaves the
      ordinates undefined (0/0), shown as None. */
  function GiniOfSorted(y: seq<real>): Option<real>
  {
    if |y| == 0 then Some(1.0)
    else if Sum(y) == 0.0 then None
    else Some(1.0 - Trapezoid(Lorenz(y), 0))
  }

  function Gini(vals: seq<Option<real>>): Option<real>
  {
    GiniOfSorted(Sort(Present(vals)))
  }

  /** Reordering the series does not change the coefficient. */
  lemma GiniPermutationInvariant(a: seq<Option<real>>, b: seq<Option<real>>)
    requires multiset(Present(a)) == multiset(Present(b))
    ensures Gini(a) == Gini(b)
  {
    SortPermutation(Present(a), Present(b));
  }

  /** Inserting a missing value anywhere does not change the coefficient. */
  lemma GiniIgnoresMissing(a: seq<Option<real>>, k: nat)
    requires k <= |a|
    ensures Gini(a[..k] + [None] + a[k..]) == Gini(a)
  {
    var b := a[..k] + [None] + a[k..];
    PresentAppend(a[..k] + [None], a[k..]);
    PresentAppend(a[..k], [None]);
    PresentAppend(a[..k], a[k..]);
    assert Present([None]) == [];
    assert a[..k] + a[k..] == a;
    assert Present(b) == Present(a);
  }

  // ---------------------------------------------------------------------
  // Lorenz ordinates
  // ---------------------------------------------------------------------

  predicate NonNegative(s: seq<real>) {
    forall i :: 0 <= i < |s| ==> s[i] >= 0.0
  }

  lemma {:induction false} PrefixSumMonotone(y: seq<real>, i: nat, j: nat)
    requires NonNegative(y) && i <= j <= |y|
    ensures Sum(y[..i]) <= Sum(y[..j])
    decreases j - i
  {
    if i < j {
      PrefixSumMonotone(y, i, j - 1);
      assert y[..j][..j - 1] == y[..j - 1];
    }
  }

  /** For non-negative values with a positive total the ordinates climb from 0 to 1. */
  lemma LorenzMonotone(y: seq<real>)
    requires NonNegative(y) && Sum(y) > 0.0
    ensures forall i, j :: 0 <= i <= j <= |y| ==> 0.0 <= Lorenz(y)[i] <= Lorenz(y)[j] <= 1.0
  {
    var w := Lorenz(y);
    var t := Sum(y);
    forall i, j | 0 <= i <= j <= |y|
      ensures 0.0 <= w[i] <= w[j] <= 1.0
    {
      PrefixSumMonotone(y, 0, i);
      PrefixSumMonotone(y, i, j);
      PrefixSumMonotone(y, j, |y|);
      assert y[..|y|] == y;
      assert y[..0] == [];
      DivideMonotone(0.0, Sum(y[..i]), t);
      DivideMonotone(Sum(y[..i]), Sum(y[..j]), t);
      DivideMonotone(Sum(y[..j]), t, t);
    }
  }

  lemma DivideMonotone(a: real, b: real, c: real)
    requires a <= b && c > 0.0
    ensures a / c <= b / c
  {
  }

  // ---------------------------------------------------------------------
  // The calibration checks of gini.py:16-19, exact over the reals
  // ---------------------------------------------------------------------

  /** The coefficient of a series is that of any ascending arrangement of its values. */
  lemma GiniFromSorted(vals: seq<Option<real>>, y: seq<real>)
    requires Sorted(y) && multiset(Present(vals)) == multiset(y)
    ensures Gini(vals) == GiniOfSorted(y)
  {
    SortedUnique(Sort(Present(vals)), y);
  }

  lemma GiniOfSortedSingle(x: real)
    requires x != 0.0
    ensures GiniOfSorted([x]) == Some(0.0)
  {
    assert [x][..0] == [] && [x][..1] == [x];
    assert Sum([x]) == x;
    var w := Lorenz([x]);
    assert w == [0.0, 1.0];
    assert Trapezoid(w, 1) == 0.0;
    assert Trapezoid(w, 0) == 1.0;
  }

  /** One non-zero value: perfect equality (line 16). */
  lemma GiniSingle(x: real)
    requires x != 0.0
    ensures Gini([Some(x)]) == Some(0.0)
  {
    assert Present([Some(x)]) == [x];
    GiniFromSorted([Some(x)], [x]);
    GiniOfSortedSingle(x);
  }

  lemma GiniOfSortedTwoPoint()
    ensures GiniOfSorted([0.0, 100.0]) == Some(0.5)
  {
    var y := [0.0, 100.0];
    assert y[..0] == [] && y[..1] == [0.0] && y[..2] == y;
    assert Sum(y) == 100.0;
    var w := Lorenz(y);
    assert w == [0.0, 0.0, 1.0];
    assert Trapezoid(w, 2) == 0.0;
    assert Trapezoid(w, 1) == 0.5;
    assert Trapezoid(w, 0) == 0.5;
  }

  /** [0, 100] gives 0.5 (line 17). */
  lemma GiniTwoPoint()
    ensures Gini([Some(0.0), Some(100.0)]) == Some(0.5)
  {
    assert Present([Some(0.0), Some(100.0)]) == [0.0, 100.0];
    GiniFromSorted([Some(0.0), Some(100.0)], [0.0, 100.0]);
    GiniOfSortedTwoPoint();
  }

  lemma GiniOfSortedFourPoint()
    ensures GiniOfSorted([1.0, 1.0, 2.0, 2.0]) == Some(1.0 / 6.0)
  {
    var y := [1.0, 1.0, 2.0, 2.0];
    assert y[..0] == [] && y[..1] == [1.0] && y[..2] == [1.0, 1.0] && y[..3] == [1.0, 1.0, 2.0] && y[..4] == y;
    assert Sum(y[..1]) == 1.0;
    assert y[..2][..1] == y[..1];
    assert Sum(y[..2]) == 2.0;
    assert y[..3][..2] == y[..2];
    assert Sum(y[..3]) == 4.0;
    assert y[..3] == y[..4][..3];
    assert Sum(y) == 6.0;
    var w := Lorenz(y);
    assert w == [0.0, 1.0 / 6.0, 2.0 / 6.0, 4.0 / 6.0, 1.0];
    assert Trapezoid(w, 4) == 0.0;
    assert Trapezoid(w, 3) == (4.0 / 6.0 + 1.0) / 4.0;
    assert Trapezoid(w, 2) == (2.0 / 6.0 + 4.0 / 6.0) / 4.0 + (4.0 / 6.0 + 1.0) / 4.0;
    assert Trapezoid(w, 1) == (1.0 / 6.0 + 2.0 / 6.0) / 4.0 + (2.0 / 6.0 + 4.0 / 6.0) / 4.0 + (4.0 / 6.0 + 1.0) / 4.0;
    assert Trapezoid(w, 0) == 5.0 / 6.0;
  }

  lemma PresentFourPoint()
    ensures Present([Some(1.0), Some(1.0), Some(2.0), Some(2.0)]) == [1.0, 1.0, 2.0, 2.0]
  {
  }

  lemma FourPointSorted()
    ensures Sorted([1.0, 1.0, 2.0, 2.0])
  {
  }

  /** [1, 1, 2, 2] gives exactly 1/6, within 0.0005 of 0.167 (line 19). */
  lemma GiniFourPoint()
    ensures Gini([Some(1.0), Some(1.0), Some(2.0), Some(2.0)]) == Some(1.0 / 6.0)
    ensures -0.0005 < 1.0 / 6.0 - 0.167 < 0.0005
  {
    var vals := [Some(1.0), Some(1.0), Some(2.0), Some(2.0)];
    PresentFourPoint();
    FourPointSorted();
    GiniFromSorted(vals, [1.0, 1.0, 2.0, 2.0]);
    GiniOfSortedFourPoint();
  }

  lemma GiniOfSortedSixPoint()
    ensures GiniOfSorted([17500.0, 20000.0, 23500.0, 45200.0, 70000.0, 998000.0]) == Some(2819.0 / 3914.0)
  {
    var y := [17500.0, 20000.0, 23500.0, 45200.0, 70000.0, 998000.0];
    assert y[..0] == [];
    assert y[..1] == [17500.0];
    assert y[..2] == [17500.0, 20000.0];
    assert y[..3] == [17500.0, 20000.0, 23500.0];
    assert y[..4] == [17500.0, 20000.0, 23500.0, 45200.0];
    assert y[..5] == [17500.0, 20000.0, 23500.0, 45200.0, 70000.0];
    assert y[..6] == y;
    assert Sum(y[..1]) == 17500.0;
    assert y[..2][..1] == y[..1];
    assert Sum(y[..2]) == 37500.0;
    assert y[..3][..2] == y[..2];
    assert Sum(y[..3]) == 61000.0;
    assert y[..4][..3] == y[..3];
    assert Sum(y[..4]) == 106200.0;
    assert y[..5][..4] == y[..4];
    assert Sum(y[..5]) == 176200.0;
    assert y[..6][..5] == y[..5];
    assert Sum(y) == 1174200.0;
    var w := Lorenz(y);
    var t := 1174200.0;
    assert w == [0.0, 17500.0 / t, 37500.0 / t, 61000.0 / t, 106200.0 / t, 176200.0 / t, 1.0];
    assert Trapezoid(w, 6) == 0.0;
    assert Trapezoid(w, 5) == (176200.0 / t + 1.0) / 6.0;
    assert Trapezoid(w, 4) == (106200.0 / t + 176200.0 / t) / 6.0 + (176200.0 / t + 1.0) / 6.0;
    assert Trapezoid(w, 3) == (61000.0 + 2.0 * 106200.0 + 2.0 * 176200.0) / t / 6.0 + 1.0 / 6.0;
    assert Trapezoid(w, 2) == (37500.0 + 2.0 * 61000.0 + 2.0 * 106200.0 + 2.0 * 176200.0) / t / 6.0 + 1.0 / 6.0;
    assert Trapezoid(w, 1) == (17500.0 + 2.0 * 37500.0 + 2.0 * 61000.0 + 2.0 * 106200.0 + 2.0 * 176200.0) / t / 6.0 + 1.0 / 6.0;
    assert Trapezoid(w, 0) == (2.0 * 17500.0 + 2.0 * 37500.0 + 2.0 * 61000.0 + 2.0 * 106200.0 + 2.0 * 176200.0) / t / 6.0 + 1.0 / 6.0;
  }

  lemma PresentSixPoint()
    ensures Present([Some(998000.0), Some(20000.0), Some(17500.0), Some(70000.0), Some(23500.0), Some(45200.0)])
      == [998000.0, 20000.0, 17500.0, 70000.0, 23500.0, 45200.0]
  {
  }

  lemma SixPointArrangement()
    ensures multiset([998000.0, 20000.0, 17500.0, 70000.0, 23500.0, 45200.0])
      == multiset([17500.0, 20000.0, 23500.0, 45200.0, 70000.0, 998000.0])
  {
  }

  lemma SixPointSorted()
    ensures Sorted([17500.0, 20000.0, 23500.0, 45200.0, 70000.0, 998000.0])
  {
  }

  /** The published six-salary example is within 0.00005 of 0.7202 (line 18);
      its exact value is 2819/3914. */
  lemma GiniSixPoint()
    ensures Gini([Some(998000.0), Some(20000.0), Some(17500.0), Some(70000.0), Some(23500.0), Some(45200.0)])
      == Some(2819.0 / 3914.0)
    ensures -0.00005 < 2819.0 / 3914.0 - 0.7202 < 0.00005
  {
    var vals := [Some(998000.0), Some(20000.0), Some(17500.0), Some(70000.0), Some(23500.0), Some(45200.0)];
    var raw := [998000.0, 20000.0, 17500.0, 70000.0, 23500.0, 45200.0];
    var y := [17500.0, 20000.0, 23500.0, 45200.0, 70000.0, 998000.0];
    PresentSixPoint();
    SixPointArrangement();
    SixPointSorted();
    GiniFromSorted(vals, y);
    GiniOfSortedSixPoint();
  }
}
