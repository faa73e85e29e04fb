# University of Illinois Gray Book salaries: a Dafny model

The uisalaries repository turns the University of Illinois "Gray Book" into a
salary table. The Gray Book is a set of HTML tables, one per college or other
unit. The repository then builds two interactive reports from that table.
This project models the pure data logic of those scripts and proves
properties of it. All scraping, file handling and user interface is left out.

- **Per-unit normaliser** (`Normalize`, with `Cells` and `Numeric`). This
  models `collegeSalaries` after the download, and the earlier prototype
  script. Work on one scraped table goes in this order:
  - the two column repairs: "Employee Total for All Jobs..." rows and
    additional-job-title rows;
  - the forward fill of employee names;
  - turning department subheader rows into a `Dept` column;
  - converting the four salary and FTE columns to numbers.
- **Cross-unit aggregation** (`Aggregation`, `Pipeline`). The normalised
  unit tables are concatenated. Then:
  - each employee's authoritative totals are found;
  - job titles are joined per (name, campus, college, department);
  - duplicate rows are collapsed;
  - salary per FTE is computed.
- **Gini coefficient** (`GiniIndex`). The repository's calibration values are
  proved as exact rational facts.
- **Department report** (`DeptReport`). This covers selection, descending
  average ranks, the ascending table with the top k excluded, and the median
  and Gini of the full selection.
- **Cross-department report** (`CrossDeptReport`, with `Quantile`). This
  covers the 'All'-or-exact filters and grouping by (campus, college,
  department). Per group it gives size, count, min, 25th percentile, median,
  75th percentile, max and Gini, with percentiles interpolated linearly. It
  also covers the college options offered for a campus.

Conventions of the model:

- A cell is `Null`, `Text(s)` or `Num(v)` over exact `real`s.
- A scraped table is a header and rows of cells. Once its width is checked,
  it has 8 columns: name 0, job title 1, FTEs 4 and 5, salaries 6 and 7.
  Columns are found by position, not by header name.
- Failures that a run on a well-formed download can hit become an `Error`
  value in a `Result`. These are:
  - the `assert`s at processData.py:38, :40 and :50;
  - the missing first cell of an empty table (processData.py:60);
  - text that `pd.to_numeric` rejects (processData.py:72);
  - concatenating no tables at all (processData.py:87);
  - a non-text job title reaching the join (processData.py:109).
- The source's `assert`s at processData.py:44 and :117 are proved never to
  fire, so no error exists for them.
- The `assert` at processData.py:107 is `NullJobTitle` when
  `Aggregation.Aggregate` gets arbitrary rows. `Pipeline.Salaries` proves it
  never arises after normalisation.
- The nesting checks at deptReport.py:13-14 are hypotheses of
  `DeptReport.SelectionByDeptAlone`, not errors.

Where the code departs from the documented intent of the repository, the model
follows the code:

- A row is a combined-total row when its name cell is the sentinel. Nothing
  else is checked (processData.py:37).
- The Gini coefficient of a series with no values is 1: the sum at gini.py:15
  is empty. It is not undefined.
- College 'All' in the cross-department report tests `college == college`,
  which drops rows with a missing college. Grouping drops those rows anyway,
  and `CrossDeptReport.CollegeAllIsUnfiltered` proves that the report is the
  same as with no college filter.
- The college of a unit is the first cell of its table, taken after the two
  repairs and the name fill-down (processData.py:60).

## Model

| member | source | states |
|---|---|---|
| Cells.FillForward | processData.py:56 | every missing cell takes the nearest earlier non-missing cell, present cells are kept, and cells before the first present one stay missing |
| Cells.FillForwardNoGapAfterFirst | processData.py:56 | once a column has a non-missing cell, no later cell of the filled column is missing |
| Numeric.CoerceIgnoresCurrency | processData.py:68 | inserting a `$` or `,` anywhere in a cell's text does not change what it coerces to |
| Numeric.CoerceRejectsForeign | processData.py:72 | text holding any character other than a digit, sign, `.`, `$` or `,` fails as Unparseable |
| Numeric.FormatDollarsRoundTrip | processData.py:66-72 | every whole-dollar amount printed as `$d,ddd,ddd` coerces back to exactly that number |
| Numeric.CoerceAmountRoundTrip | processData.py:66-72 | every amount printed with an optional minus sign, a `$`, thousands separators and two cents digits coerces back to exactly that signed number |
| Numeric.CoerceCentsExample | processData.py:68-72 | `"$1,234.50"` coerces to 1234.5 |
| Normalize.MoveTotalsEffect | processData.py:41-43 | running the move loop right to left leaves columns 4..7 holding the original columns 1..4 and columns 1..3 missing, so nothing is overwritten before it is read |
| Normalize.RepairTotalRow | processData.py:41-46 | on a total row: columns 4..7 take the original columns 1..4, columns 2..3 are missing, Job Title is the sentinel and the name is missing |
| Normalize.RepairTotals | processData.py:37-46 | total rows are repaired as above and every other row is unchanged |
| Normalize.RepairAdditionalTitleRow | processData.py:51-53 | an additional-title row moves one column right (`new[c] = old[c-1]` for c in 1..7) and its name becomes missing |
| Normalize.RepairAdditionalTitles | processData.py:49-53 | exactly the rows with missing Proposed Salary and present Present Salary are shifted; the others are unchanged |
| Normalize.RepairColumns | processData.py:36-53 | succeeds iff the table has 8 columns, every total row has its last three cells missing, and the last column is named Proposed Salary; a wrong column count is reported as such; on success each row has the total repair applied first and then the additional-title repair |
| Normalize.TotalRowSeenByAdditionalTitleMask | uisalaries.py:10-26 | the additional-title mask is taken after the total repair: a total row with a value in column 3 and none in column 4 is shifted a second time and becomes exactly `[missing, missing, sentinel, missing, missing, col1, col2, col3]` of the original row; its Job Title is then missing, so the row is later read as a department subheader |
| Normalize.FillNames | processData.py:56 | other columns are unchanged; a present name is kept; a missing name becomes the nearest earlier present name |
| Normalize.Prototype | uisalaries.py:9-29 | succeeds iff the table has 8 columns, total rows have their last three cells missing and the last column is Proposed Salary, with the same error otherwise; one output row per input row, none still marked as a total row; each name is the nearest earlier present name after the repairs; ordinary named rows are unchanged; a total row becomes the sentinel title, two missing cells and its original columns 1..4; an additional-title row is its original cells shifted right by one |
| Normalize.Departments | processData.py:61-62 | a row's department is the name of the nearest subheader row (missing Job Title) at or above it that has a name; it is missing only when there is no such subheader |
| Normalize.TitledIndices | processData.py:63 | the positions of the rows with a Job Title, each exactly once and in increasing order |
| Normalize.KeepTitled | processData.py:59-63 | one output row per row with a Job Title, in the original order: the a-th output is the a-th titled row's cells tagged with the given campus, college and that row's own department |
| Normalize.Annotate | processData.py:59-63 | an empty table fails (the first cell does not exist); otherwise the a-th output is the a-th titled row, tagged with the given campus, the table's first cell as college and its department |
| Normalize.Coerce | processData.py:65-72 | fails with Unparseable iff some text cell in a numeric column does not parse; on success, in a column that held text, each text becomes what it coerces to (a number, or missing when empty) and each number becomes missing; columns without text are unchanged; the first four columns and the unit tags are kept |
| Normalize.CoerceIdempotent | processData.py:65-72 | converting an already converted table changes nothing |
| Normalize.CollegeSalaries | processData.py:36-72 | repair errors propagate; an empty table fails; otherwise it fails, with Unparseable, iff some titled row has an unparseable numeric text; on success the a-th output row is the a-th titled row of the prototype result with its numeric columns converted, tagged with the campus, the first cell as college and its department |
| Normalize.CollegeIsFirstCell | processData.py:60 | when the first raw row is an ordinary named row, every output row's college is that row's first cell |
| Sorting.Sort | gini.py:12 | the result is ascending and a permutation of the input |
| Sorting.SortedUnique | gini.py:12 | two ascending permutations of the same values are equal, so sorting is determined by the values alone |
| Sorting.SortedDistinct | crossDeptReport.py:51 | the result is strictly ascending and holds exactly the input's strings |
| GiniIndex.Lorenz | gini.py:13 | n+1 ordinates, starting at 0 and ending at 1, each equal to the prefix sum over the total |
| GiniIndex.LorenzMonotone | gini.py:13 | for non-negative values with a positive total the ordinates rise from 0 to 1 |
| GiniIndex.GiniFromSorted | gini.py:12-15 | `Gini` of a series is the trapezoid sum over any ascending arrangement of its non-missing values |
| GiniIndex.GiniPermutationInvariant | gini.py:12 | reordering the series does not change `Gini` |
| GiniIndex.GiniIgnoresMissing | gini.py:12 | inserting a missing value anywhere does not change `Gini` |
| GiniIndex.GiniSingle | gini.py:16 | a single non-zero value has coefficient 0 |
| GiniIndex.GiniTwoPoint | gini.py:17 | `[0, 100]` has coefficient exactly 0.5 |
| GiniIndex.GiniSixPoint | gini.py:18 | `[998000, 20000, 17500, 70000, 23500, 45200]` has coefficient 2819/3914, within 0.00005 of 0.7202 |
| GiniIndex.GiniFourPoint | gini.py:19 | `[1, 1, 2, 2]` has coefficient exactly 1/6, within 0.0005 of 0.167 |
| Quantile.Interpolate | crossDeptReport.py:27-28 | the value lies between the two order statistics around the position, equals the order statistic at a whole-number position, and is the last one at the end |
| Quantile.InterpolateLinear | crossDeptReport.py:27-28 | between positions lo and lo+1 the value is `x[lo] + (pos - lo) * (x[lo+1] - x[lo])`, pandas' linear interpolation |
| Quantile.MedianExample | crossDeptReport.py:31 | `SeriesQuantile` of `[1, 2, 3, 4]` at 0.5 is 2.5 |
| Quantile.LowerQuartileExample | crossDeptReport.py:27 | `SeriesQuantile` of `[1, 2, 3, 4]` at 0.25 is 1.75 |
| Quantile.QuantileMonotone | crossDeptReport.py:27-31 | a higher percentile never gives a smaller value |
| Quantile.QuantileEnds | crossDeptReport.py:27-31 | percentile 0 is the minimum and percentile 1 the maximum |
| Quantile.SeriesOrderStatistics | crossDeptReport.py:27-31 | over a series with a value, `SeriesQuantile` at 0 is the min and at 1 the max, and min ≤ p25 ≤ median ≤ p75 ≤ max |
| Aggregation.RowCountOnly | processData.py:91 | a name on exactly one row has row count 1 |
| Aggregation.RowCountAtLeastTwo | processData.py:91 | a name on two rows has row count at least 2 |
| Aggregation.SentinelMax | processData.py:95-96 | missing iff no total row of that name has a value; otherwise it is one of those values and at least as large as all of them |
| Aggregation.EmployeeTotalSingle | processData.py:97 | `EmployeeTotal` of an employee with a single row is that row's own value |
| Aggregation.EmployeeTotalMultiple | processData.py:94-97 | `EmployeeTotal` of an employee with several rows is the largest value on their total rows, or missing when none has one |
| Aggregation.EmployeeTotalShared | processData.py:94-97 | all rows of one employee carry the same `EmployeeTotal` |
| Aggregation.GroupTitles | processData.py:108-109 | the parts are exactly the key's titles that are neither empty nor the sentinel |
| Aggregation.GroupTitlesAppend | processData.py:108-109 | titles are joined in row order: the titles of one block of rows followed by another are the first block's titles followed by the second's |
| Aggregation.GroupTitlesRow | processData.py:108-109 | a single row contributes its title iff it is keyed by the group and its title is text that is neither empty nor the sentinel |
| Aggregation.GroupTitlesCount | processData.py:108-109 | each title is joined exactly as often as there are rows of the key carrying it |
| Aggregation.SplitJoin | processData.py:109 | `Join` with `"; "` loses nothing: splitting the joined string gives the titles back |
| Aggregation.TitleOfParts | processData.py:108-109 | `TitleOf` a row is missing iff its key is incomplete; otherwise it is empty when the group has no joinable title and else splits back into exactly the group's joinable titles |
| Aggregation.SameKeySameRecord | processData.py:112-117 | two rows with the same (name, campus, college, dept) key yield identical output records |
| Aggregation.Dedup | processData.py:114 | the result has the same elements as the input, without repeats |
| Aggregation.DedupKeysUnique | processData.py:117 | after dropping duplicate records the key (empname, campus, college, dept) is unique, so the assert cannot fire |
| Aggregation.PerFte | processData.py:120-123 | salary per FTE is present iff salary and FTE are present and FTE is not 0, and then it times the FTE gives the salary |
| Aggregation.Collapse | processData.py:112-123 | one record per key, every row's record appears, and nothing else appears |
| Aggregation.Aggregate | processData.py:107-123 | fails with NullJobTitle iff a row has no Job Title, fails with NonTextJobTitle iff a title group holds a non-text title, otherwise gives the collapsed table |
| Pipeline.Concat | processData.py:84-87 | an empty list fails with NothingToConcatenate; otherwise it succeeds iff every unit does and reports the first failing unit's error; on success its length is the sum of the units' and each unit's rows appear as one block, in unit order |
| Pipeline.ConcatRowsPlaces | processData.py:87 | unit i's rows sit right after the rows of the units before it |
| Pipeline.ConcatTitled | processData.py:87 | concatenated rows keep Job Titles and come from the given campuses |
| Pipeline.OutcomesTitled | processData.py:36-72 | every successfully normalised unit has Job Titles on all rows and its own campus |
| Pipeline.Salaries | processData.py:84-123 | succeeds iff every unit normalises and no title group holds a non-text title; the missing-title assert never fires on its own; on success the (name, campus, college, dept) keys are unique, every concatenated row's record (with salary per FTE) appears, and nothing else does |
| DeptReport.SelectionByDeptAlone | deptReport.py:13-14 | when departments nest in colleges and colleges in campuses, every row of a selected department that has a college matches the whole selection (rows with a missing college are ignored by the nesting checks, as `nunique` skips NaN) |
| DeptReport.ValueOf | deptReport.py:25-26 | 'Previous Salary' reads the current salary per FTE and any other choice the new salary per FTE, as crossDeptReport.py:19-20 also does |
| DeptReport.Select | deptReport.py:32-33 | keeps exactly the rows whose campus, college and dept all match, each as many times as it occurs in the table |
| DeptReport.RankOrder | deptReport.py:34 | a larger value gets a strictly smaller rank, equal values get equal ranks, and ranks lie between 1 and the number of values |
| DeptReport.RankAverage | deptReport.py:34 | a value's rank is the mean of the positions its tied group occupies: with a values above it and c equal to it, rank times c is a+1 + … + a+c |
| DeptReport.RankExample | deptReport.py:34 | `[100, 100, 50]` ranks as `[1.5, 1.5, 3]` |
| DeptReport.SortRows | deptReport.py:37 | the table is ascending by value with missing values first, and is a permutation of its input |
| DeptReport.FullTable | deptReport.py:32-37 | the sorted table is ascending and a permutation of the selection's ranked rows |
| DeptReport.Exclude | deptReport.py:30-31 | drops the last k rows (all rows when k exceeds the length), keeps the rest as they were, and on an ascending table the dropped rows are the largest |
| DeptReport.DeptTable | deptReport.py:24-37 | the shown rows are ascending, number the selection's size minus k, are a prefix of the full sorted table, are no larger than the dropped rows, and form a sub-multiset of the selection's ranked rows; the median is `SeriesQuantile` at 0.5 and the Gini is `Gini` of the full table's values in thousands, whatever k is |
| CrossDeptReport.Filter | crossDeptReport.py:22-26 | keeps exactly the rows that meet both the campus filter and the college filter, each as many times as it occurs in the table |
| CrossDeptReport.FilterCampus | crossDeptReport.py:22-23 | keeps exactly the rows that meet the campus filter, each as many times as it occurs in the table |
| CrossDeptReport.Keys | crossDeptReport.py:29-30 | the group keys are distinct and are exactly the keys of rows with complete (campus, college, dept) |
| CrossDeptReport.GroupValues | crossDeptReport.py:29-30 | a value is in a group's series iff some row of that group has it |
| CrossDeptReport.GroupValuesSize | crossDeptReport.py:29-31 | a group's series has one entry per row of the group |
| CrossDeptReport.GroupValuesCount | crossDeptReport.py:29-31 | each value occurs in a group's series exactly as often as there are rows of the group holding it |
| CrossDeptReport.Summarize | crossDeptReport.py:27-31 | size counts all values and count the present ones; p25, median and p75 are `SeriesQuantile` at 0.25, 0.5 and 0.75 and gini is `Gini` of the series; with none present every statistic is missing and gini is 1; otherwise min and max are the quantiles at 0 and 1, lie among the values, and min ≤ p25 ≤ median ≤ p75 ≤ max |
| CrossDeptReport.SummarizeOrderFree | crossDeptReport.py:29-31 | the summary depends only on the series' length and the multiset of its present values, not on row order |
| CrossDeptReport.Summaries | crossDeptReport.py:29-31 | one summary per group key, each the summary of that group's series |
| CrossDeptReport.CrossDept | crossDeptReport.py:18-31 | one row per group, no group twice, the groups are exactly those of the selected rows, and each row is the summary of its group's series among the filtered rows |
| CrossDeptReport.GroupSizesSum | crossDeptReport.py:29-31 | the group sizes add up to the number of groupable rows, so each row lands in exactly one group |
| CrossDeptReport.ReportSizesSum | crossDeptReport.py:29-31 | the sizes in the report add up to the number of filtered rows that can be grouped |
| CrossDeptReport.CollegeAllIsUnfiltered | crossDeptReport.py:25-26 | college 'All' gives the same report as no college filter at all |
| CrossDeptReport.CampusColleges | crossDeptReport.py:51 | the colleges of a campus, defined iff every college of that campus is text |
| CrossDeptReport.CollegeOptions | crossDeptReport.py:49-51 | campus 'All' offers only 'All'; otherwise 'All' followed by the campus's distinct colleges in strictly ascending order |
| CrossDeptReport.CampusChange | crossDeptReport.py:49-52 | after a campus change the selected college is 'All', which is always among the options |

## Left out

- Download, HTML cache, sleep and HTML parsing (processData.py:24-33) are input and output. A unit's table is a parameter.
- The hard-coded list of college codes and the fetch loop (processData.py:77-86) are data and input. `Pipeline.Salaries` takes the units as a parameter.
- CSV export and import, and the pandas display option, are input, output and configuration.
- The debug comparison of computed and shown totals (processData.py:92-104) only prints and does not affect the result.
- All Bokeh widgets, figures, layouts, callbacks and the rank labels are user interface.
- Columns are found by position once the width is checked. The `KeyError` pandas raises when a header is not named 'Employee Name', 'Job Title', 'Present Salary' and so on is not modelled; only the last column's name is checked (processData.py:50).
- Floating point: values are exact reals. NaN is `Null` in a table and `None` in a series. Division of a zero total in the Gini coefficient gives `None` where the code gives NaN.
- Numeric.CoerceText: accepts an optional sign, then digits with at most one '.', and at least one digit (so ".5" and "5." are numbers), after `$` and `,` are removed. `pd.to_numeric` also accepts exponents, "inf", "nan" and surrounding blanks, which the model rejects as Unparseable.
- DeptReport.SortRows: it is a stable insertion sort, while pandas' default sort is not stable. The contract states only order and permutation, which both sorts share.
- CrossDeptReport.Filter: the contract states which rows are kept and how often, not that they keep table order (the function keeps it). Only the order of the groups depends on it, and that order is not modelled either (see Keys).
- CrossDeptReport.FilterCampus: as for Filter, row order is kept by the function but not stated.
- DeptReport.Select: the contract states which rows are kept and how often, not their order; the table is sorted afterwards, and the sort's order among equal values is not modelled (see SortRows).
- CrossDeptReport.GroupValues: the contract and `CrossDeptReport.GroupValuesCount` state the values with their multiplicity, not their order; no statistic of the report depends on it (`CrossDeptReport.SummarizeOrderFree`).
- CrossDeptReport.Keys: groups are listed in order of first appearance, while pandas lists them sorted by key. The contract states only which groups there are.
- CrossDeptReport.CampusColleges: gives `None` as soon as one college of the campus is not text, including a campus whose colleges are all numbers, which Python's `sorted` accepts (see CollegeOptions).
- CrossDeptReport.CollegeOptions: when a campus has a college that is not text it gives `None`. Python's `sorted` raises only on a mix of text and non-text; it returns a list when every college of the campus is a number or NaN, and those all-non-text cases are not modelled, because the option list of the college menu is a list of names.
- GiniIndex.Gini: a series with no values gives 1, as the code does, not NaN.
