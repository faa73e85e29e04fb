/** The cross-department report of crossDeptReport.py: an 'All'-or-exact
    filter on campus and college, one group per (campus, college, dept), and
    per group the size, count, min, quartiles, max and Gini
    (crossDeptReport.py:18-31), plus the college choices a campus offers
    (crossDeptReport.py:49-52). */
module CrossDeptReport {
  import opened Wrappers
  import opened Cells
  import opened Sorting
  import opened GiniIndex
  import opened Quantile
  import opened Aggregation
  import opened DeptReport

  const All: string := "All"

  // ----- Filter (lines 21-26) -----

  /** 'All' compares the campus with itself, which every row passes. */
  predicate CampusSelected(e: Employee, campus: string) {
    campus == All || e.salary.campus == campus
  }

  /** 'All' compares the college with itself, which a missing college fails. */
  predicate CollegeSelected(e: Employee, college: string) {
    if college == All then e.salary.college != Null else e.salary.college == Text(college)
  }

  predicate Selected(e: Employee, campus: string, college: string) {
    CampusSelected(e, campus) && CollegeSelected(e, college)
  }

  /** The rows that pass both the campus and the college filter, in table order. */
  function Filter(sal: seq<Employee>, campus: string, college: string): (r: seq<Employee>)
    ensures |r| <= |sal|
    ensures forall e :: e in r <==> e in sal && Selected(e, campus, college)
    ensures forall e :: multiset(r)[e] == if Selected(e, campus, college) then multiset(sal)[e] else 0
  {
    if |sal| == 0 then []
    else
      var n := |sal| - 1;
      assert sal == sal[..n] + [sal[n]];
      Filter(sal[..n], campus, college) + (if Selected(sal[n], campus, college) then [sal[n]] else [])
  }

  /** The campus filter alone. */
  function FilterCampus(sal: seq<Employee>, campus: string): (r: seq<Employee>)
    ensures |r| <= |sal|
    ensures forall e :: e in r <==> e in sal && CampusSelected(e, campus)
    ensures forall e :: multiset(r)[e] == if CampusSelected(e, campus) then multiset(sal)[e] else 0
  {
    if |sal| == 0 then []
    else
      var n := |sal| - 1;
      assert sal == sal[..n] + [sal[n]];
      FilterCampus(sal[..n], campus) + (if CampusSelected(sal[n], campus) then [sal[n]] else [])
  }

  // ----- Groups (lines 29-30) -----

  datatype GroupKey = GroupKey(campus: string, college: Cell, dept: Cell)

  function GroupKeyOf(e: Employee): GroupKey {
    GroupKey(e.salary.campus, e.salary.college, e.salary.dept)
  }

  /** Grouping leaves out rows with a missing key part. */
  predicate Groupable(e: Employee) {
    e.salary.college != Null && e.salary.dept != Null
  }

  predicate Distinct(keys: seq<GroupKey>) {
    forall i, j :: 0 <= i < j < |keys| ==> keys[i] != keys[j]
  }

  /** The keys of the groups, once each, in order of first appearance. */
  function Keys(rows: seq<Employee>): (keys: seq<GroupKey>)
    ensures Distinct(keys)
    ensures forall k :: k in keys <==> exists i :: 0 <= i < |rows| && Groupable(rows[i]) && GroupKeyOf(rows[i]) == k
  {
    if |rows| == 0 then []
    else
      var n := |rows| - 1;
      var prev := Keys(rows[..n]);
      if Groupable(rows[n]) && GroupKeyOf(rows[n]) !in prev then prev + [GroupKeyOf(rows[n])] else prev
  }

  /** Row e belongs to group k. */
  predicate InGroup(e: Employee, k: GroupKey) {
    Groupable(e) && GroupKeyOf(e) == k
  }

  /** The chosen variable over the rows of group k, in table order. */
  function GroupValues(rows: seq<Employee>, k: GroupKey, choice: string): (vals: seq<Option<real>>)
    ensures |vals| <= |rows|
    ensures forall v :: v in vals <==> exists i :: 0 <= i < |rows| && InGroup(rows[i], k) && ValueOf(rows[i], choice) == v
  {
    if |rows| == 0 then []
    else
      var n := |rows| - 1;
      var e := rows[n];
      var prev := GroupValues(rows[..n], k, choice);
      assert forall i :: 0 <= i < n ==> rows[..n][i] == rows[i];
      prev + (if InGroup(e, k) then [ValueOf(e, choice)] else [])
  }

  /** The positions of the rows of group k. */
  function GroupMembers(rows: seq<Employee>, k: GroupKey): set<nat> {
    set i: nat | i < |rows| && InGroup(rows[i], k)
  }

  /** A group has one value per row that belongs to it. */
  lemma {:induction false} GroupValuesSize(rows: seq<Employee>, k: GroupKey, choice: string)
    ensures |GroupValues(rows, k, choice)| == |GroupMembers(rows, k)|
  {
    if |rows| > 0 {
      var n := |rows| - 1;
      GroupValuesSize(rows[..n], k, choice);
      var last := if InGroup(rows[n], k) then {n} else {};
      assert GroupMembers(rows, k) == GroupMembers(rows[..n], k) + last;
      assert n !in GroupMembers(rows[..n], k);
    }
  }

  /** Row e belongs to group k and has v as its chosen variable. */
  predicate HasValue(e: Employee, k: GroupKey, choice: string, v: Option<real>) {
    InGroup(e, k) && ValueOf(e, choice) == v
  }

  /** The positions of the rows of group k whose chosen variable is v. */
  function ValueMembers(rows: seq<Employee>, k: GroupKey, choice: string, v: Option<real>): set<nat> {
    set i: nat | i < |rows| && HasValue(rows[i], k, choice, v)
  }

  /** Each value occurs in a group's series once per row of the group that has it. */
  lemma {:induction false} GroupValuesCount(rows: seq<Employee>, k: GroupKey, choice: string, v: Option<real>)
    ensures multiset(GroupValues(rows, k, choice))[v] == |ValueMembers(rows, k, choice, v)|
  {
    if |rows| > 0 {
      GroupValuesCount(rows[..|rows| - 1], k, choice, v);
      GroupValuesLast(rows, k, choice, v);
      ValueMembersLast(rows, k, choice, v);
    }
  }

  lemma GroupValuesLast(rows: seq<Employee>, k: GroupKey, choice: string, v: Option<real>)
    requires |rows| > 0
    ensures multiset(GroupValues(rows, k, choice))[v]
      == multiset(GroupValues(rows[..|rows| - 1], k, choice))[v] + (if HasValue(rows[|rows| - 1], k, choice, v) then 1 else 0)
  {
  }

  lemma ValueMembersLast(rows: seq<Employee>, k: GroupKey, choice: string, v: Option<real>)
    requires |rows| > 0
    ensures |ValueMembers(rows, k, choice, v)|
      == |ValueMembers(rows[..|rows| - 1], k, choice, v)| + (if HasValue(rows[|rows| - 1], k, choice, v) then 1 else 0)
  {
    var n := |rows| - 1;
    var last: set<nat> := if HasValue(rows[n], k, choice, v) then {n} else {};
    assert ValueMembers(rows, k, choice, v) == ValueMembers(rows[..n], k, choice, v) + last;
    assert n !in ValueMembers(rows[..n], k, choice, v);
  }

  // ----- Per-group statistics (line 31) -----

  datatype Summary = Summary(
    key: GroupKey, size: nat, count: nat,
    min: Option<real>, p25: Option<real>, median: Option<real>, p75: Option<real>, max: Option<real>,
    gini: Option<real>)

  /** The per-group aggregation of line 31: size and count, the minimum,
      the three quartiles by linear interpolation, the maximum and the Gini
      coefficient of the group's values. */
  function Summarize(key: GroupKey, vals: seq<Option<real>>): (s: Summary)
    ensures s.key == key && s.size == |vals| && s.count == |Present(vals)| && s.count <= s.size
    ensures s.p25 == SeriesQuantile(vals, 0.25) && s.median == SeriesQuantile(vals, 0.5)
      && s.p75 == SeriesQuantile(vals, 0.75)
    ensures s.gini == Gini(vals)
    ensures s.count == 0 ==> s.min.None? && s.p25.None? && s.median.None? && s.p75.None? && s.max.None?
    ensures s.count == 0 ==> s.gini == Some(1.0)
    ensures s.count >= 1 ==> s.min == SeriesQuantile(vals, 0.0) && s.max == SeriesQuantile(vals, 1.0)
    ensures s.count >= 1 ==> s.min.Some? && s.p25.Some? && s.median.Some? && s.p75.Some? && s.max.Some?
    ensures s.count >= 1 ==> s.min.value <= s.p25.value <= s.median.value <= s.p75.value <= s.max.value
    ensures s.count >= 1 ==> s.min.value in Present(vals) && s.max.value in Present(vals)
  {
    var s := Summary(key, |vals|, |Present(vals)|,
      SeriesMin(vals), SeriesQuantile(vals, 0.25), SeriesQuantile(vals, 0.5), SeriesQuantile(vals, 0.75), SeriesMax(vals),
      Gini(vals));
    if |Present(vals)| > 0 then
      SeriesOrderStatistics(vals);
      s
    else
      assert Sort(Present(vals)) == [];
      s
  }

  /** A group's summary depends on its values only, not on their order. */
  lemma SummarizeOrderFree(key: GroupKey, a: seq<Option<real>>, b: seq<Option<real>>)
    requires |a| == |b| && multiset(Present(a)) == multiset(Present(b))
    ensures Summarize(key, a) == Summarize(key, b)
  {
    assert |Present(a)| == |multiset(Present(a))| == |multiset(Present(b))| == |Present(b)|;
    SortPermutation(Present(a), Present(b));
    GiniPermutationInvariant(a, b);
    if |Present(a)| > 0 {
      MinIsSortedHead(Present(a));
      MinIsSortedHead(Present(b));
      MaxIsSortedLast(Present(a));
      MaxIsSortedLast(Present(b));
    }
  }

  function Summaries(rows: seq<Employee>, choice: string): (r: seq<Summary>)
    ensures |r| == |Keys(rows)|
    ensures forall i :: 0 <= i < |r| ==> r[i] == Summarize(Keys(rows)[i], GroupValues(rows, Keys(rows)[i], choice))
    ensures forall i :: 0 <= i < |r| ==> r[i].key == Keys(rows)[i] && r[i].size == |GroupValues(rows, Keys(rows)[i], choice)|
  {
    var keys := Keys(rows);
    seq(|keys|, i requires 0 <= i < |keys| => Summarize(keys[i], GroupValues(rows, keys[i], choice)))
  }

  /** The keys of the groupable selected rows. */
  ghost function SelectedKeys(sal: seq<Employee>, campus: string, college: string): set<GroupKey> {
    set e | e in sal && Selected(e, campus, college) && Groupable(e) :: GroupKeyOf(e)
  }

  lemma KeysCover(rows: seq<Employee>, sal: seq<Employee>, campus: string, college: string)
    requires forall e :: e in rows <==> e in sal && Selected(e, campus, college)
    ensures forall k :: k in Keys(rows) <==> k in SelectedKeys(sal, campus, college)
  {
    forall k | k in SelectedKeys(sal, campus, college)
      ensures k in Keys(rows)
    {
      var e :| e in sal && Selected(e, campus, college) && Groupable(e) && GroupKeyOf(e) == k;
      assert e in rows;
      var i :| 0 <= i < |rows| && rows[i] == e;
    }
    forall k | k in Keys(rows)
      ensures k in SelectedKeys(sal, campus, college)
    {
      var i :| 0 <= i < |rows| && Groupable(rows[i]) && GroupKeyOf(rows[i]) == k;
      assert rows[i] in rows;
    }
  }

  /** The keys of a report, in order. */
  function ReportKeys(r: seq<Summary>): (keys: seq<GroupKey>)
    ensures |keys| == |r| && forall a :: 0 <= a < |r| ==> keys[a] == r[a].key
  {
    seq(|r|, a requires 0 <= a < |r| => r[a].key)
  }

  /** The report table: one summary per group of the filtered rows. Its
      keys are distinct and are exactly the keys of the selected rows that
      have a full key, so every such row lands in exactly one group. */
  function CrossDept(sal: seq<Employee>, choice: string, campus: string, college: string): (r: seq<Summary>)
    ensures Distinct(ReportKeys(r))
    ensures forall k :: k in ReportKeys(r) <==> k in SelectedKeys(sal, campus, college)
    ensures forall a :: 0 <= a < |r| ==>
      r[a] == Summarize(r[a].key, GroupValues(Filter(sal, campus, college), r[a].key, choice))
  {
    var rows := Filter(sal, campus, college);
    var r := Summaries(rows, choice);
    KeysCover(rows, sal, campus, college);
    assert ReportKeys(r) == Keys(rows);
    r
  }

  // ----- Group sizes add up (line 31) -----

  /** The rows that land in some group. */
  function CountGroupable(rows: seq<Employee>): (n: nat)
    ensures n <= |rows|
  {
    if |rows| == 0 then 0
    else CountGroupable(rows[..|rows| - 1]) + (if Groupable(rows[|rows| - 1]) then 1 else 0)
  }

  function SumSizes(rows: seq<Employee>, keys: seq<GroupKey>, choice: string): nat {
    if |keys| == 0 then 0
    else SumSizes(rows, keys[..|keys| - 1], choice) + |GroupValues(rows, keys[|keys| - 1], choice)|
  }

  lemma GroupValuesStep(p: seq<Employee>, e: Employee, k: GroupKey, choice: string)
    ensures |GroupValues(p + [e], k, choice)| == |GroupValues(p, k, choice)| + (if Groupable(e) && GroupKeyOf(e) == k then 1 else 0)
  {
    assert (p + [e])[..|p|] == p;
  }

  /** Appending a row adds one to the sizes of its group, if that group is listed. */
  lemma {:induction false} SumSizesStep(p: seq<Employee>, e: Employee, keys: seq<GroupKey>, choice: string)
    requires Distinct(keys)
    ensures SumSizes(p + [e], keys, choice) == SumSizes(p, keys, choice) + (if Groupable(e) && GroupKeyOf(e) in keys then 1 else 0)
    decreases |keys|
  {
    if |keys| > 0 {
      var n := |keys| - 1;
      SumSizesStep(p, e, keys[..n], choice);
      GroupValuesStep(p, e, keys[n], choice);
      assert keys == keys[..n] + [keys[n]];
      assert GroupKeyOf(e) in keys <==> GroupKeyOf(e) in keys[..n] || GroupKeyOf(e) == keys[n];
      assert keys[n] !in keys[..n];
    }
  }

  lemma {:induction false} GroupValuesAbsent(rows: seq<Employee>, k: GroupKey, choice: string)
    requires forall i :: 0 <= i < |rows| ==> !(Groupable(rows[i]) && GroupKeyOf(rows[i]) == k)
    ensures GroupValues(rows, k, choice) == []
  {
    if |rows| > 0 {
      GroupValuesAbsent(rows[..|rows| - 1], k, choice);
    }
  }

  /** The group sizes add up to the number of groupable rows. */
  lemma {:induction false} GroupSizesSum(rows: seq<Employee>, choice: string)
    ensures SumSizes(rows, Keys(rows), choice) == CountGroupable(rows)
  {
    if |rows| > 0 {
      var n := |rows| - 1;
      var p, e := rows[..n], rows[n];
      assert rows == p + [e];
      var keys := Keys(p);
      GroupSizesSum(p, choice);
      SumSizesStep(p, e, keys, choice);
      if Groupable(e) && GroupKeyOf(e) !in keys {
        var k := GroupKeyOf(e);
        GroupValuesAbsent(p, k, choice);
        GroupValuesStep(p, e, k, choice);
        assert Keys(rows) == keys + [k];
        assert (keys + [k])[..|keys|] == keys;
      }
    }
  }

  /** The `size` column summed over the report. */
  function TotalSize(r: seq<Summary>): nat {
    if |r| == 0 then 0 else TotalSize(r[..|r| - 1]) + r[|r| - 1].size
  }

  lemma {:induction false} TotalSizePrefix(rows: seq<Employee>, choice: string, j: nat)
    requires j <= |Keys(rows)|
    ensures TotalSize(Summaries(rows, choice)[..j]) == SumSizes(rows, Keys(rows)[..j], choice)
  {
    if j > 0 {
      TotalSizePrefix(rows, choice, j - 1);
      SummariesPrefixLast(rows, choice, j);
      KeysPrefixLast(rows, choice, j);
    }
  }

  lemma SummariesPrefixLast(rows: seq<Employee>, choice: string, j: nat)
    requires 0 < j <= |Keys(rows)|
    ensures TotalSize(Summaries(rows, choice)[..j])
      == TotalSize(Summaries(rows, choice)[..j - 1]) + |GroupValues(rows, Keys(rows)[j - 1], choice)|
  {
    var p := Summaries(rows, choice)[..j];
    TotalSizeLast(p);
    assert p[..j - 1] == Summaries(rows, choice)[..j - 1];
    assert p[j - 1] == Summaries(rows, choice)[j - 1];
  }

  lemma KeysPrefixLast(rows: seq<Employee>, choice: string, j: nat)
    requires 0 < j <= |Keys(rows)|
    ensures SumSizes(rows, Keys(rows)[..j], choice)
      == SumSizes(rows, Keys(rows)[..j - 1], choice) + |GroupValues(rows, Keys(rows)[j - 1], choice)|
  {
    var p := Keys(rows)[..j];
    SumSizesLast(rows, p, choice);
    assert p[..j - 1] == Keys(rows)[..j - 1];
    assert p[j - 1] == Keys(rows)[j - 1];
  }

  lemma TotalSizeLast(r: seq<Summary>)
    requires |r| > 0
    ensures TotalSize(r) == TotalSize(r[..|r| - 1]) + r[|r| - 1].size
  {
  }

  lemma SumSizesLast(rows: seq<Employee>, keys: seq<GroupKey>, choice: string)
    requires |keys| > 0
    ensures SumSizes(rows, keys, choice) == SumSizes(rows, keys[..|keys| - 1], choice) + |GroupValues(rows, keys[|keys| - 1], choice)|
  {
  }

  /** The report's group sizes add up to the filtered rows that have a full key. */
  lemma ReportSizesSum(sal: seq<Employee>, choice: string, campus: string, college: string)
    ensures TotalSize(CrossDept(sal, choice, campus, college)) == CountGroupable(Filter(sal, campus, college))
  {
    var rows := Filter(sal, campus, college);
    var r, keys := Summaries(rows, choice), Keys(rows);
    TotalSizePrefix(rows, choice, |keys|);
    assert r[..|r|] == r && keys[..|keys|] == keys;
    GroupSizesSum(rows, choice);
  }

  // ----- College 'All' drops nothing groupby would keep -----

  /** Two tables with the same groups. */
  ghost predicate SameGroups(a: seq<Employee>, b: seq<Employee>, choice: string) {
    Keys(a) == Keys(b) && forall k :: GroupValues(a, k, choice) == GroupValues(b, k, choice)
  }

  /** A row with a missing key part changes no group. */
  lemma AppendUngroupable(b: seq<Employee>, e: Employee, choice: string)
    requires !Groupable(e)
    ensures SameGroups(b + [e], b, choice)
  {
    assert (b + [e])[..|b|] == b;
  }

  lemma AppendBoth(a: seq<Employee>, b: seq<Employee>, e: Employee, choice: string)
    requires SameGroups(a, b, choice)
    ensures SameGroups(a + [e], b + [e], choice)
  {
    assert (a + [e])[..|a|] == a && (b + [e])[..|b|] == b;
  }

  /** Keys and group values are the same whether the college filter is
      'All' or absent: the only rows it removes have no college. */
  lemma {:induction false} CollegeAllGroups(sal: seq<Employee>, campus: string, choice: string)
    ensures SameGroups(Filter(sal, campus, All), FilterCampus(sal, campus), choice)
  {
    if |sal| > 0 {
      var n := |sal| - 1;
      var e := sal[n];
      CollegeAllGroups(sal[..n], campus, choice);
      var a, b := Filter(sal[..n], campus, All), FilterCampus(sal[..n], campus);
      if !CampusSelected(e, campus) {
        assert Filter(sal, campus, All) == a && FilterCampus(sal, campus) == b;
      } else if e.salary.college == Null {
        assert Filter(sal, campus, All) == a && FilterCampus(sal, campus) == b + [e];
        AppendUngroupable(b, e, choice);
      } else {
        assert Filter(sal, campus, All) == a + [e] && FilterCampus(sal, campus) == b + [e];
        AppendBoth(a, b, e, choice);
      }
    }
  }

  /** With college 'All' the report equals the report of the campus filter alone. */
  lemma CollegeAllIsUnfiltered(sal: seq<Employee>, choice: string, campus: string)
    ensures CrossDept(sal, choice, campus, All) == Summaries(FilterCampus(sal, campus), choice)
  {
    CollegeAllGroups(sal, campus, choice);
  }

  // ----- College choices (lines 49-52) -----

  /** The colleges of a campus's rows, in table order; None if one of them is
      not text (Python cannot sort text among missing values or numbers; a
      campus whose colleges are all non-text is not modelled). */
  function CampusColleges(sal: seq<Employee>, campus: string): (r: Option<seq<string>>)
    ensures r.Some? <==> forall i :: 0 <= i < |sal| && sal[i].salary.campus == campus ==> sal[i].salary.college.Text?
    ensures r.Some? ==> forall c :: c in r.value <==> exists i :: 0 <= i < |sal| && sal[i].salary.campus == campus && sal[i].salary.college == Text(c)
  {
    if |sal| == 0 then Some([])
    else
      var n := |sal| - 1;
      var prev := CampusColleges(sal[..n], campus);
      var e := sal[n];
      if prev.None? then None
      else if e.salary.campus != campus then prev
      else if e.salary.college.Text? then Some(prev.value + [e.salary.college.s])
      else None
  }

  /** The college options for a campus: just 'All' for 'All', otherwise 'All'
      followed by the campus's distinct colleges in ascending order. */
  function CollegeOptions(sal: seq<Employee>, campus: string): (r: Option<seq<string>>)
    ensures campus == All ==> r == Some([All])
    ensures campus != All ==> (r.Some? <==> CampusColleges(sal, campus).Some?)
    ensures campus != All && r.Some? ==> |r.value| >= 1 && r.value[0] == All && StrictlyAscending(r.value[1..])
    ensures campus != All && r.Some? ==> forall c :: c in r.value[1..] <==>
      exists i :: 0 <= i < |sal| && sal[i].salary.campus == campus && sal[i].salary.college == Text(c)
  {
    if campus == All then Some([All])
    else
      var colleges := CampusColleges(sal, campus);
      if colleges.None? then None
      else
        var opts := [All] + SortedDistinct(colleges.value);
        assert opts[1..] == SortedDistinct(colleges.value);
        Some(opts)
  }

  /** Picking a campus offers its college options and resets the college to 'All'. */
  function CampusChange(sal: seq<Employee>, campus: string): (r: Option<(seq<string>, string)>)
    ensures r.Some? ==> r.value.1 == All && All in r.value.0
    ensures r.Some? <==> CollegeOptions(sal, campus).Some?
  {
    var opts := CollegeOptions(sal, campus);
    if opts.None? then None else Some((opts.value, All))
  }
}
