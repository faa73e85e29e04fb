/** The department report of deptReport.py: one department's employees,
    their descending rank, the table sorted ascending with missing values
    first and the top k dropped, and the median and Gini of the whole
    department (deptReport.py:13-14, 24-37). */
module DeptReport {
  import opened Wrappers
  import opened Cells
  import opened Sorting
  import opened GiniIndex
  import opened Quantile
  import opened Aggregation

  // ----- Nesting of departments in colleges in campuses (lines 13-14) -----

  /** The nesting check of line 13 for dept d: the rows of d
      show exactly one distinct non-missing college. */
  predicate OneCollege(sal: seq<Employee>, d: Cell) {
    exists w :: 0 <= w < |sal| && sal[w].salary.dept == d && sal[w].salary.college != Null
      && forall j :: 0 <= j < |sal| && sal[j].salary.dept == d && sal[j].salary.college != Null ==>
        sal[j].salary.college == sal[w].salary.college
  }

  predicate DeptsNest(sal: seq<Employee>) {
    forall i :: 0 <= i < |sal| && sal[i].salary.dept != Null ==> OneCollege(sal, sal[i].salary.dept)
  }

  /** The nesting check of line 14: a college lies on one campus. */
  predicate CollegesNest(sal: seq<Employee>) {
    forall i, j ::
      (0 <= i < |sal| && 0 <= j < |sal| && sal[i].salary.college != Null && sal[i].salary.college == sal[j].salary.college)
      ==> sal[i].salary.campus == sal[j].salary.campus
  }

  /** The rows shown for (campus, college, dept): the three must all match. */
  predicate Matches(e: Employee, campus: string, college: string, dept: string) {
    e.salary.campus == campus && e.salary.college == Text(college) && e.salary.dept == Text(dept)
  }

  /** Under the nesting asserts, a department that occurs under the selected
      college and campus is selected whole: every row of it with a college matches. */
  lemma SelectionByDeptAlone(sal: seq<Employee>, campus: string, college: string, dept: string, i: nat)
    requires DeptsNest(sal) && CollegesNest(sal)
    requires i < |sal| && Matches(sal[i], campus, college, dept)
    ensures forall j :: 0 <= j < |sal| && sal[j].salary.dept == Text(dept) && sal[j].salary.college != Null ==>
      Matches(sal[j], campus, college, dept)
  {
    assert OneCollege(sal, Text(dept));
    var w :| 0 <= w < |sal| && sal[w].salary.dept == Text(dept) && sal[w].salary.college != Null
      && forall j :: 0 <= j < |sal| && sal[j].salary.dept == Text(dept) && sal[j].salary.college != Null ==>
        sal[j].salary.college == sal[w].salary.college;
    forall j | 0 <= j < |sal| && sal[j].salary.dept == Text(dept) && sal[j].salary.college != Null
      ensures Matches(sal[j], campus, college, dept)
    {
      assert sal[j].salary.college == sal[i].salary.college;
    }
  }

  // ----- Selection (lines 25-33) -----

  /** 'Previous Salary' shows the current salary per FTE, any other choice the new one. */
  function ValueOf(e: Employee, choice: string): (v: Option<real>)
    ensures choice == "Previous Salary" ==> v == e.cursalaryperfte
    ensures choice != "Previous Salary" ==> v == e.newsalaryperfte
  {
    if choice == "Previous Salary" then e.cursalaryperfte else e.newsalaryperfte
  }

  /** The rows of (campus, college, dept), in table order. */
  function Select(sal: seq<Employee>, campus: string, college: string, dept: string): (r: seq<Employee>)
    ensures |r| <= |sal|
    ensures forall e :: e in r <==> e in sal && Matches(e, campus, college, dept)
    ensures forall e :: multiset(r)[e] == if Matches(e, campus, college, dept) then multiset(sal)[e] else 0
  {
    if |sal| == 0 then []
    else
      var n := |sal| - 1;
      assert sal == sal[..n] + [sal[n]];
      Select(sal[..n], campus, college, dept) + (if Matches(sal[n], campus, college, dept) then [sal[n]] else [])
  }

  // ----- Rank, descending with averaged ties (line 34) -----

  /** How many present values exceed v. */
  function CountAbove(vals: seq<Option<real>>, v: real): (n: nat)
    ensures n <= |vals|
  {
    if |vals| == 0 then 0
    else CountAbove(vals[..|vals| - 1], v) + (if vals[|vals| - 1].Some? && vals[|vals| - 1].value > v then 1 else 0)
  }

  /** How many present values equal v. */
  function CountEqual(vals: seq<Option<real>>, v: real): (n: nat)
    ensures n <= |vals|
  {
    if |vals| == 0 then 0
    else CountEqual(vals[..|vals| - 1], v) + (if vals[|vals| - 1] == Some(v) then 1 else 0)
  }

  /** Descending rank with ties averaged: the mean of the positions the tied values
      occupy when the present values are listed largest first; missing
      values get no rank. */
  function Rank(vals: seq<Option<real>>, i: nat): Option<real>
    requires i < |vals|
  {
    if vals[i].None? then None
    else
      var v := vals[i].value;
      Some(CountAbove(vals, v) as real + (CountEqual(vals, v) as real + 1.0) / 2.0)
  }

  function Ranks(vals: seq<Option<real>>): (r: seq<Option<real>>)
    ensures |r| == |vals| && forall i :: 0 <= i < |vals| ==> r[i] == Rank(vals, i)
  {
    seq(|vals|, i requires 0 <= i < |vals| => Rank(vals, i))
  }

  lemma {:induction false} CountEqualPositive(vals: seq<Option<real>>, i: nat)
    requires i < |vals| && vals[i].Some?
    ensures CountEqual(vals, vals[i].value) >= 1
  {
    var n := |vals| - 1;
    if i < n {
      CountEqualPositive(vals[..n], i);
    }
  }

  /** Everything at or above v is strictly above a smaller w. */
  lemma {:induction false} CountAboveSmaller(vals: seq<Option<real>>, v: real, w: real)
    requires w < v
    ensures CountAbove(vals, w) >= CountAbove(vals, v) + CountEqual(vals, v)
  {
    if |vals| > 0 {
      CountAboveSmaller(vals[..|vals| - 1], v, w);
    }
  }

  /** The present values are split into those above v, those equal to it, and the rest. */
  lemma {:induction false} CountsBound(vals: seq<Option<real>>, v: real)
    ensures CountAbove(vals, v) + CountEqual(vals, v) <= |Present(vals)|
  {
    if |vals| > 0 {
      var n := |vals| - 1;
      CountsBound(vals[..n], v);
      assert vals == vals[..n] + [vals[n]];
      PresentAppend(vals[..n], [vals[n]]);
    }
  }

  /** A larger value gets a strictly smaller rank, equal values equal ranks,
      and every rank lies between 1 and the number of present values. */
  lemma RankOrder(vals: seq<Option<real>>, i: nat, j: nat)
    requires i < |vals| && j < |vals| && vals[i].Some? && vals[j].Some?
    ensures vals[i].value > vals[j].value ==> Rank(vals, i).value < Rank(vals, j).value
    ensures vals[i] == vals[j] ==> Rank(vals, i) == Rank(vals, j)
    ensures 1.0 <= Rank(vals, i).value <= |Present(vals)| as real
  {
    var v, w := vals[i].value, vals[j].value;
    CountEqualPositive(vals, i);
    CountEqualPositive(vals, j);
    CountsBound(vals, v);
    if v > w {
      CountAboveSmaller(vals, v, w);
    }
  }

  /** Values [100, 100, 50] rank [1.5, 1.5, 3]. */
  lemma RankExample()
    ensures Ranks([Some(100.0), Some(100.0), Some(50.0)]) == [Some(1.5), Some(1.5), Some(3.0)]
  {
    var vals := [Some(100.0), Some(100.0), Some(50.0)];
    assert vals[..2] == [Some(100.0), Some(100.0)] && vals[..2][..1] == [Some(100.0)];
    assert CountAbove(vals, 100.0) == 0 && CountEqual(vals, 100.0) == 2;
    assert CountAbove(vals, 50.0) == 2 && CountEqual(vals, 50.0) == 1;
  }

  /** The positions of the present values above v, and of those equal to it. */
  function AboveSet(vals: seq<Option<real>>, v: real): set<nat> {
    set j: nat | j < |vals| && vals[j].Some? && vals[j].value > v
  }

  function EqualSet(vals: seq<Option<real>>, v: real): set<nat> {
    set j: nat | j < |vals| && vals[j] == Some(v)
  }

  lemma {:induction false} CountAboveIsSize(vals: seq<Option<real>>, v: real)
    ensures CountAbove(vals, v) == |AboveSet(vals, v)|
  {
    if |vals| > 0 {
      var n := |vals| - 1;
      CountAboveIsSize(vals[..n], v);
      var last := if vals[n].Some? && vals[n].value > v then {n} else {};
      assert AboveSet(vals, v) == AboveSet(vals[..n], v) + last;
      assert n !in AboveSet(vals[..n], v);
    }
  }

  lemma {:induction false} CountEqualIsSize(vals: seq<Option<real>>, v: real)
    ensures CountEqual(vals, v) == |EqualSet(vals, v)|
  {
    if |vals| > 0 {
      var n := |vals| - 1;
      CountEqualIsSize(vals[..n], v);
      var last := if vals[n] == Some(v) then {n} else {};
      assert EqualSet(vals, v) == EqualSet(vals[..n], v) + last;
      assert n !in EqualSet(vals[..n], v);
    }
  }

  /** The sum of the positions a + 1, ..., a + c. */
  function PositionSum(a: nat, c: nat): nat {
    if c == 0 then 0 else PositionSum(a, c - 1) + a + c
  }

  lemma {:induction false} PositionSumClosed(a: nat, c: nat)
    ensures 2 * PositionSum(a, c) == c * (2 * a + c + 1)
  {
    if c > 0 {
      PositionSumClosed(a, c - 1);
      assert c * (2 * a + c + 1) == (c - 1) * (2 * a + c) + 2 * a + 2 * c;
    }
  }

  /** A present value's rank is the average of the positions its ties fill
      when the present values are listed largest first: the values above it
      take positions 1 to a, its c ties take a + 1 to a + c. */
  lemma RankAverage(vals: seq<Option<real>>, i: nat)
    requires i < |vals| && vals[i].Some?
    ensures |EqualSet(vals, vals[i].value)| >= 1
    ensures Rank(vals, i).value * |EqualSet(vals, vals[i].value)| as real
      == PositionSum(|AboveSet(vals, vals[i].value)|, |EqualSet(vals, vals[i].value)|) as real
  {
    RankFromSets(vals, i);
    var v := vals[i].value;
    MeanRank(|AboveSet(vals, v)|, |EqualSet(vals, v)|, Rank(vals, i).value);
  }

  /** a + (c + 1) / 2 is the mean of a + 1, ..., a + c. */
  lemma MeanRank(a: nat, c: nat, rank: real)
    requires rank == a as real + (c as real + 1.0) / 2.0
    ensures rank * c as real == PositionSum(a, c) as real
  {
    PositionSumClosed(a, c);
    MeanPosition(a, c, PositionSum(a, c), rank);
  }

  lemma RankFromSets(vals: seq<Option<real>>, i: nat)
    requires i < |vals| && vals[i].Some?
    ensures |EqualSet(vals, vals[i].value)| >= 1
    ensures Rank(vals, i).value
      == |AboveSet(vals, vals[i].value)| as real + (|EqualSet(vals, vals[i].value)| as real + 1.0) / 2.0
  {
    CountAboveIsSize(vals, vals[i].value);
    CountEqualIsSize(vals, vals[i].value);
    CountEqualPositive(vals, i);
  }

  lemma MeanPosition(a: nat, c: nat, sum: nat, rank: real)
    requires 2 * sum == c * (2 * a + c + 1)
    requires rank == a as real + (c as real + 1.0) / 2.0
    ensures rank * c as real == sum as real
  {
    var A, C, S := a as real, c as real, sum as real;
    assert 2.0 * S == C * (2.0 * A + C + 1.0) by {
      assert (c * (2 * a + c + 1)) as real == C * ((2 * a + c + 1) as real);
    }
    calc {
      rank * C;
      (A + (C + 1.0) / 2.0) * C;
      A * C + (C + 1.0) / 2.0 * C;
      (2.0 * A * C + C * C + C) / 2.0;
      (C * (2.0 * A + C + 1.0)) / 2.0;
      S;
    }
  }

  // ----- The table: ascending, missing first, top k dropped (lines 30-31, 37) -----

  datatype DeptRow = DeptRow(empname: Cell, empdepttitle: Cell, value: Option<real>, rank: Option<real>)

  /** The order of an ascending sort that puts missing values first. */
  predicate ValueLeq(a: Option<real>, b: Option<real>) {
    a.None? || (b.Some? && a.value <= b.value)
  }

  predicate Ascending(rows: seq<DeptRow>) {
    forall i, j :: 0 <= i < j < |rows| ==> ValueLeq(rows[i].value, rows[j].value)
  }

  function InsertRow(x: DeptRow, s: seq<DeptRow>): (r: seq<DeptRow>)
    requires Ascending(s)
    ensures Ascending(r)
    ensures multiset(r) == multiset(s) + multiset{x}
    ensures |r| == |s| + 1
  {
    if |s| == 0 then [x]
    else if ValueLeq(x.value, s[0].value) then [x] + s
    else
      var rest := InsertRow(x, s[1..]);
      assert s == [s[0]] + s[1..];
      HeadBelowInsert(s[0], s[1..], x, rest);
      [s[0]] + rest
  }

  /** The head of an ascending table stays first when a larger row is inserted behind it. */
  lemma HeadBelowInsert(h: DeptRow, t: seq<DeptRow>, x: DeptRow, rest: seq<DeptRow>)
    requires Ascending([h] + t) && !ValueLeq(x.value, h.value)
    requires multiset(rest) == multiset(t) + multiset{x}
    ensures forall k :: 0 <= k < |rest| ==> ValueLeq(h.value, rest[k].value)
  {
    forall k | 0 <= k < |rest|
      ensures ValueLeq(h.value, rest[k].value)
    {
      assert rest[k] in multiset(rest);
      if rest[k] == x {
        assert ValueLeq(h.value, x.value);
      } else {
        assert rest[k] in multiset(t);
        var i :| 0 <= i < |t| && t[i] == rest[k];
        var s := [h] + t;
        assert s[0] == h && s[i + 1] == t[i];
        assert ValueLeq(s[0].value, s[i + 1].value);
      }
    }
  }

  /** The rows in ascending order of value, missing values first. */
  function SortRows(s: seq<DeptRow>): (r: seq<DeptRow>)
    ensures Ascending(r)
    ensures multiset(r) == multiset(s)
    ensures |r| == |s|
  {
    if |s| == 0 then []
    else
      assert s == [s[0]] + s[1..];
      InsertRow(s[0], SortRows(s[1..]))
  }

  /** For k > 0 the last k rows go, for k = 0 nothing does. On an
      ascending table they are the largest values. */
  function Exclude(rows: seq<DeptRow>, k: nat): (r: seq<DeptRow>)
    ensures |r| == if k < |rows| then |rows| - k else 0
    ensures r == rows[..|r|]
    ensures Ascending(rows) ==> forall i, j :: 0 <= i < |r| <= j < |rows| ==> ValueLeq(r[i].value, rows[j].value)
  {
    if k == 0 then rows
    else if k < |rows| then rows[..|rows| - k]
    else []
  }

  // ----- The report -----

  /** A value in thousands. */
  function Thousands(v: Option<real>): Option<real> {
    if v.Some? then Some(v.value / 1000.0) else None
  }

  /** A table's values in thousands. */
  function Scaled(rows: seq<DeptRow>): (r: seq<Option<real>>)
    ensures |r| == |rows|
  {
    if |rows| == 0 then [] else [Thousands(rows[0].value)] + Scaled(rows[1..])
  }

  function Ranked(sel: seq<Employee>, choice: string): (r: seq<DeptRow>)
    ensures |r| == |sel|
  {
    var vals := seq(|sel|, i requires 0 <= i < |sel| => ValueOf(sel[i], choice));
    seq(|sel|, i requires 0 <= i < |sel| => DeptRow(sel[i].salary.empname, sel[i].salary.empdepttitle, vals[i], Rank(vals, i)))
  }

  datatype Report = Report(rows: seq<DeptRow>, median: Option<real>, gini: Option<real>)

  /** The department's rows with their ranks, sorted ascending with missing values first. */
  function FullTable(sal: seq<Employee>, choice: string, campus: string, college: string, dept: string): (r: seq<DeptRow>)
    ensures Ascending(r)
    ensures multiset(r) == multiset(Ranked(Select(sal, campus, college, dept), choice))
  {
    SortRows(Ranked(Select(sal, campus, college, dept), choice))
  }

  /** The selection of lines 24-37: the sorted table with its top k rows dropped, and the
      median and Gini (in thousands) of the whole department, whatever k is. */
  function DeptTable(sal: seq<Employee>, choice: string, campus: string, college: string, dept: string, k: nat): (r: Report)
    ensures Ascending(r.rows)
    ensures |r.rows| == if k < |Select(sal, campus, college, dept)| then |Select(sal, campus, college, dept)| - k else 0
    ensures r.rows == FullTable(sal, choice, campus, college, dept)[..|r.rows|]
    ensures var full := FullTable(sal, choice, campus, college, dept);
      forall i, j :: 0 <= i < |r.rows| <= j < |full| ==> ValueLeq(r.rows[i].value, full[j].value)
    ensures multiset(r.rows) <= multiset(Ranked(Select(sal, campus, college, dept), choice))
    ensures forall x :: x in r.rows ==> x in Ranked(Select(sal, campus, college, dept), choice)
    ensures r.median == SeriesQuantile(Scaled(FullTable(sal, choice, campus, college, dept)), 0.5)
    ensures r.gini == Gini(Scaled(FullTable(sal, choice, campus, college, dept)))
  {
    var ranked := Ranked(Select(sal, campus, college, dept), choice);
    var full := SortRows(ranked);
    ShownRows(ranked, full, k);
    Report(Exclude(full, k), SeriesQuantile(Scaled(ranked), 0.5), Gini(Scaled(ranked)))
  }

  /** What the report shows of a sorted table, stated for any table. */
  lemma ShownRows(ranked: seq<DeptRow>, full: seq<DeptRow>, k: nat)
    requires full == SortRows(ranked)
    ensures Ascending(Exclude(full, k))
    ensures |Exclude(full, k)| == if k < |ranked| then |ranked| - k else 0
    ensures Exclude(full, k) == full[..|Exclude(full, k)|]
    ensures forall i, j :: 0 <= i < |Exclude(full, k)| <= j < |full| ==> ValueLeq(Exclude(full, k)[i].value, full[j].value)
    ensures multiset(Exclude(full, k)) <= multiset(ranked)
    ensures forall x :: x in Exclude(full, k) ==> x in ranked
    ensures SeriesQuantile(Scaled(ranked), 0.5) == SeriesQuantile(Scaled(full), 0.5)
    ensures Gini(Scaled(ranked)) == Gini(Scaled(full))
  {
    ExcludeKeeps(full, ranked, k);
    SortedStats(ranked, full);
  }

  /** The rows left on show are some of the rows of any permutation of the table. */
  lemma ExcludeKeeps(rows: seq<DeptRow>, orig: seq<DeptRow>, k: nat)
    requires multiset(rows) == multiset(orig)
    ensures multiset(Exclude(rows, k)) <= multiset(orig)
    ensures forall x :: x in Exclude(rows, k) ==> x in orig
  {
    var r := Exclude(rows, k);
    assert rows == r + rows[|r|..];
    forall x | x in r
      ensures x in orig
    {
      assert x in multiset(orig);
    }
  }

  /** The median and Gini do not depend on the order of the rows. */
  lemma SortedStats(ranked: seq<DeptRow>, full: seq<DeptRow>)
    requires full == SortRows(ranked)
    ensures SeriesQuantile(Scaled(ranked), 0.5) == SeriesQuantile(Scaled(full), 0.5)
    ensures Gini(Scaled(ranked)) == Gini(Scaled(full))
  {
    PresentScaledSort(ranked);
    SortPermutation(Present(Scaled(full)), Present(Scaled(ranked)));
    GiniPermutationInvariant(Scaled(full), Scaled(ranked));
  }

  /** The present scaled values of the table, in order. */
  function PresentScaled(rows: seq<DeptRow>): seq<real> {
    Present(Scaled(rows))
  }

  lemma PresentScaledCons(x: DeptRow, t: seq<DeptRow>)
    ensures PresentScaled([x] + t) == Present([Thousands(x.value)]) + PresentScaled(t)
  {
    assert ([x] + t)[1..] == t;
    assert Scaled([x] + t) == [Thousands(x.value)] + Scaled(t);
    PresentAppend([Thousands(x.value)], Scaled(t));
  }

  /** Multiset bookkeeping for one step of InsertRow that passes the head. */
  lemma PresentScaledPass(h: DeptRow, t: seq<DeptRow>, rest: seq<DeptRow>, b: seq<real>)
    requires multiset(PresentScaled(rest)) == multiset(PresentScaled(t)) + multiset(b)
    ensures multiset(PresentScaled([h] + rest)) == multiset(PresentScaled([h] + t)) + multiset(b)
  {
    PresentScaledCons(h, rest);
    PresentScaledCons(h, t);
  }

  lemma {:induction false} PresentScaledInsert(x: DeptRow, s: seq<DeptRow>)
    requires Ascending(s)
    ensures multiset(PresentScaled(InsertRow(x, s))) == multiset(PresentScaled(s)) + multiset(Present([Thousands(x.value)]))
    decreases |s|
  {
    if |s| == 0 || ValueLeq(x.value, s[0].value) {
      assert InsertRow(x, s) == [x] + s;
      PresentScaledCons(x, s);
    } else {
      var t := s[1..];
      assert Ascending(t);
      PresentScaledInsert(x, t);
      assert InsertRow(x, s) == [s[0]] + InsertRow(x, t);
      assert s == [s[0]] + t;
      PresentScaledPass(s[0], t, InsertRow(x, t), Present([Thousands(x.value)]));
    }
  }

  lemma PresentScaledSortStep(h: DeptRow, t: seq<DeptRow>, sorted: seq<DeptRow>)
    requires Ascending(sorted) && multiset(PresentScaled(sorted)) == multiset(PresentScaled(t))
    ensures multiset(PresentScaled(InsertRow(h, sorted))) == multiset(PresentScaled([h] + t))
  {
    PresentScaledInsert(h, sorted);
    PresentScaledCons(h, t);
  }

  /** Sorting the table keeps the multiset of its present scaled values. */
  lemma {:induction false} PresentScaledSort(s: seq<DeptRow>)
    ensures multiset(PresentScaled(SortRows(s))) == multiset(PresentScaled(s))
    decreases |s|
  {
    if |s| > 0 {
      var t := s[1..];
      PresentScaledSort(t);
      assert SortRows(s) == InsertRow(s[0], SortRows(t));
      assert s == [s[0]] + t;
      PresentScaledSortStep(s[0], t, SortRows(t));
    }
  }
}
