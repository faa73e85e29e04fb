/** One academic unit's scraped Gray Book table turned into clean rows
    (processData.py:36-72; its first half is also uisalaries.py:9-29). */
module Normalize {
  import opened Wrappers
  import opened Cells
  import opened Numeric

  /** A unit's table as scraped: column names and rows. */
  datatype Frame = Frame(header: seq<string>, rows: seq<Row>)

  /** Every row has one cell per column, as in any DataFrame. */
  predicate Rectangular(f: Frame) {
    forall i :: 0 <= i < |f.rows| ==> |f.rows[i]| == |f.header|
  }

  predicate WidthRows(rows: seq<Row>) {
    forall i :: 0 <= i < |rows| ==> |rows[i]| == Width
  }

  // ---------------------------------------------------------------------
  // Total-row repair (processData.py:36-46, uisalaries.py:9-19)
  // ---------------------------------------------------------------------

  /** A combined-total row is recognised by its name cell alone. */
  predicate IsTotalRow(row: Row) {
    |row| > 0 && row[NameCol] == Text(TotalSentinel)
  }

  /** The three trailing columns a total row must leave empty. */
  predicate TrailingNull(row: Row)
    requires |row| == Width
  {
    row[5] == Null && row[6] == Null && row[7] == Null
  }

  /** One pass of the repair loop: column c takes column c-3, which is then cleared. */
  function MoveBack3(row: Row, c: nat): (r: Row)
    requires 3 <= c < |row|
    ensures |r| == |row|
  {
    row[c := row[c - 3]][c - 3 := Null]
  }

  /** The repair loop over columns c, c-1, ..., 4 (the last four, right to left). */
  function MoveTotals(row: Row, c: nat): (r: Row)
    requires |row| == Width && c < Width
    ensures |r| == Width
    decreases c
  {
    if c < 4 then row else MoveTotals(MoveBack3(row, c), c - 1)
  }

  /** Because the loop runs right to left, every column is read before it is
      overwritten: the four values land in columns 4..7 and columns 1..3 are
      left empty; in particular the Job Title assert of line 44 cannot fail. */
  lemma MoveTotalsEffect(row: Row)
    requires |row| == Width
    ensures var r := MoveTotals(row, 7);
      && r[NameCol] == row[NameCol]
      && r[1] == Null && r[2] == Null && r[3] == Null
      && r[4] == row[1] && r[5] == row[2] && r[6] == row[3] && r[7] == row[4]
  {
    var r7 := MoveBack3(row, 7);
    var r6 := MoveBack3(r7, 6);
    var r5 := MoveBack3(r6, 5);
    var r4 := MoveBack3(r5, 4);
    assert MoveTotals(r4, 3) == r4;
    assert MoveTotals(r5, 4) == r4;
    assert MoveTotals(r6, 5) == r4;
    assert MoveTotals(r7, 6) == r4;
    assert MoveTotals(row, 7) == r4;
    assert r7[7] == row[4] && r7[4] == Null;
    assert r6[6] == row[3] && r6[3] == Null && r6[7] == row[4];
    assert r5[5] == row[2] && r5[2] == Null && r5[6] == row[3] && r5[7] == row[4];
  }

  /** Total-row repair of one row (lines 41-46). */
  function RepairTotalRow(row: Row): (r: Row)
    requires |row| == Width
    ensures |r| == Width
    ensures r[NameCol] == Null && r[TitleCol] == Text(TotalSentinel)
    ensures r[2] == Null && r[3] == Null
    ensures forall c :: 4 <= c < Width ==> r[c] == row[c - 3]
  {
    MoveTotalsEffect(row);
    MoveTotals(row, 7)[TitleCol := Text(TotalSentinel)][NameCol := Null]
  }

  function RepairTotals(rows: seq<Row>): (r: seq<Row>)
    requires WidthRows(rows)
    ensures |r| == |rows| && WidthRows(r)
    ensures forall i :: 0 <= i < |rows| && IsTotalRow(rows[i]) ==>
      r[i][..4] == [Null, Text(TotalSentinel), Null, Null] && r[i][4..] == rows[i][1..5]
    ensures forall i :: 0 <= i < |rows| && !IsTotalRow(rows[i]) ==> r[i] == rows[i]
  {
    seq(|rows|, i requires 0 <= i < |rows| =>
      if IsTotalRow(rows[i]) then RepairTotalRow(rows[i]) else rows[i])
  }

  // ---------------------------------------------------------------------
  // Additional-title repair (processData.py:48-53, uisalaries.py:21-26)
  // ---------------------------------------------------------------------

  /** A row for an employee's further job title: Proposed Salary is missing
      while Present Salary is not. */
  predicate IsAdditionalTitleRow(row: Row)
    requires |row| == Width
  {
    row[ProposedSalaryCol] == Null && row[PresentSalaryCol] != Null
  }

  /** The loop over columns c, c-1, ..., 1: each takes its left neighbour. */
  function ShiftRightFrom(row: Row, c: nat): (r: Row)
    requires |row| == Width && c < Width
    ensures |r| == Width
    decreases c
  {
    if c == 0 then row else ShiftRightFrom(row[c := row[c - 1]], c - 1)
  }

  lemma {:induction false} ShiftRightFromEffect(row: Row, c: nat)
    requires |row| == Width && c < Width
    ensures var r := ShiftRightFrom(row, c);
      && (forall k :: 1 <= k <= c ==> r[k] == row[k - 1])
      && (forall k :: (k == 0 || c < k < Width) ==> r[k] == row[k])
    decreases c
  {
    if c > 0 {
      var row' := row[c := row[c - 1]];
      ShiftRightFromEffect(row', c - 1);
      var r := ShiftRightFrom(row, c);
      assert r == ShiftRightFrom(row', c - 1);
      forall k | 1 <= k <= c
        ensures r[k] == row[k - 1]
      {
        if k < c {
          assert r[k] == row'[k - 1];
        } else {
          assert r[k] == row'[k];
        }
      }
    }
  }

  /** Additional-title repair of one row (lines 51-53). */
  function RepairAdditionalTitleRow(row: Row): (r: Row)
    requires |row| == Width
    ensures |r| == Width
    ensures r[NameCol] == Null
    ensures forall c :: 1 <= c < Width ==> r[c] == row[c - 1]
  {
    ShiftRightFromEffect(row, 7);
    ShiftRightFrom(row, 7)[NameCol := Null]
  }

  function RepairAdditionalTitles(rows: seq<Row>): (r: seq<Row>)
    requires WidthRows(rows)
    ensures |r| == |rows| && WidthRows(r)
    ensures forall i :: 0 <= i < |rows| && IsAdditionalTitleRow(rows[i]) ==>
      r[i][NameCol] == Null && r[i][1..] == rows[i][..7]
    ensures forall i :: 0 <= i < |rows| && !IsAdditionalTitleRow(rows[i]) ==> r[i] == rows[i]
  {
    seq(|rows|, i requires 0 <= i < |rows| =>
      if IsAdditionalTitleRow(rows[i]) then RepairAdditionalTitleRow(rows[i]) else rows[i])
  }

  /** The format checks and both column repairs (lines 36-53). */
  function RepairColumns(f: Frame): (r: Result<seq<Row>, Error>)
    requires Rectangular(f)
    ensures r.Success? <==>
      && |f.header| == Width
      && (forall i :: 0 <= i < |f.rows| && IsTotalRow(f.rows[i]) ==> TrailingNull(f.rows[i]))
      && f.header[ProposedSalaryCol] == "Proposed Salary"
    ensures r == Failure(ColumnCount) <==> |f.header| != Width
    ensures r.Success? ==> |r.value| == |f.rows| && WidthRows(r.value)
    ensures r.Success? ==> forall i :: 0 <= i < |f.rows| ==>
      var t := if IsTotalRow(f.rows[i]) then RepairTotalRow(f.rows[i]) else f.rows[i];
      r.value[i] == if IsAdditionalTitleRow(t) then RepairAdditionalTitleRow(t) else t
  {
    if |f.header| != Width then Failure(ColumnCount)
    else if exists i :: 0 <= i < |f.rows| && IsTotalRow(f.rows[i]) && !TrailingNull(f.rows[i]) then
      Failure(TotalRowTrailingNotNull)
    else if f.header[ProposedSalaryCol] != "Proposed Salary" then Failure(LastColumnName)
    else Success(RepairAdditionalTitles(RepairTotals(f.rows)))
  }

  /** The additional-title mask is taken after the total-row repair, so a
      total row whose moved Present Salary is present but moved Proposed
      Salary is missing is shifted once more. The sentinel lands in
      column 2 and the Job Title ends up missing, so the row is
      later read as a department subheader. */
  lemma TotalRowSeenByAdditionalTitleMask(f: Frame, i: nat)
    requires Rectangular(f) && RepairColumns(f).Success?
    requires i < |f.rows| && IsTotalRow(f.rows[i])
    requires f.rows[i][4] == Null && f.rows[i][3] != Null
    ensures RepairColumns(f).value[i] ==
      [Null, Null, Text(TotalSentinel), Null, Null, f.rows[i][1], f.rows[i][2], f.rows[i][3]]
    ensures RepairColumns(f).value[i][TitleCol] == Null
  {
    var t := RepairTotalRow(f.rows[i]);
    assert IsAdditionalTitleRow(t);
  }

  // ---------------------------------------------------------------------
  // Name fill-down (processData.py:55-56, uisalaries.py:28-29)
  // ---------------------------------------------------------------------

  function Column(rows: seq<Row>, c: nat): (col: seq<Cell>)
    requires WidthRows(rows) && c < Width
    ensures |col| == |rows|
    ensures forall i :: 0 <= i < |rows| ==> col[i] == rows[i][c]
  {
    seq(|rows|, i requires 0 <= i < |rows| => rows[i][c])
  }

  function FillNames(rows: seq<Row>): (r: seq<Row>)
    requires WidthRows(rows)
    ensures |r| == |rows| && WidthRows(r)
    ensures forall i :: 0 <= i < |rows| ==> r[i][1..] == rows[i][1..]
    ensures forall i :: 0 <= i < |rows| && rows[i][NameCol] != Null ==> r[i][NameCol] == rows[i][NameCol]
    ensures forall i :: 0 <= i < |rows| && rows[i][NameCol] == Null ==>
      r[i][NameCol] == LastNonNull(Column(rows, NameCol)[..i])
    ensures forall i :: 0 <= i < |rows| ==> r[i][NameCol] == LastNonNull(Column(rows, NameCol)[..i + 1])
  {
    var names := FillForward(Column(rows, NameCol));
    seq(|rows|, i requires 0 <= i < |rows| => rows[i][NameCol := names[i]])
  }

  /** The prototype script: checks, both repairs and name fill-down
      (uisalaries.py:9-29), described row by row against the scraped table. */
  function Prototype(f: Frame): (r: Result<seq<Row>, Error>)
    requires Rectangular(f)
    ensures r.Success? <==> RepairColumns(f).Success?
    ensures r.Failure? ==> r.error == RepairColumns(f).error
    ensures r.Success? ==> r.value == FillNames(RepairColumns(f).value)
    ensures r.Success? <==>
      && |f.header| == Width
      && (forall i :: 0 <= i < |f.rows| && IsTotalRow(f.rows[i]) ==> TrailingNull(f.rows[i]))
      && f.header[ProposedSalaryCol] == "Proposed Salary"
    ensures r.Success? ==> |r.value| == |f.rows| && WidthRows(r.value)
    ensures r.Success? ==> forall i :: 0 <= i < |r.value| ==> !IsTotalRow(r.value[i])
    ensures r.Success? ==> forall i :: 0 <= i < |r.value| ==>
      r.value[i][NameCol] == LastNonNull(Column(RepairColumns(f).value, NameCol)[..i + 1])
    ensures r.Success? ==> forall i :: 0 <= i < |f.rows| && |f.rows[i]| == Width ==>
      (!IsTotalRow(f.rows[i]) && !IsAdditionalTitleRow(f.rows[i]) && f.rows[i][NameCol] != Null ==> r.value[i] == f.rows[i])
    ensures r.Success? ==> forall i :: 0 <= i < |f.rows| && |f.rows[i]| == Width ==>
      (IsTotalRow(f.rows[i]) && !(f.rows[i][4] == Null && f.rows[i][3] != Null) ==>
         r.value[i][1..] == [Text(TotalSentinel), Null, Null] + f.rows[i][1..5])
    ensures r.Success? ==> forall i :: 0 <= i < |f.rows| && |f.rows[i]| == Width ==>
      (!IsTotalRow(f.rows[i]) && IsAdditionalTitleRow(f.rows[i]) ==> r.value[i][1..] == f.rows[i][..7])
  {
    var repaired :- RepairColumns(f);
    PrototypeRows(f);
    Success(FillNames(repaired))
  }

  /** After both repairs no name cell holds the total-row sentinel. */
  lemma RepairedNamesNotSentinel(f: Frame, i: nat)
    requires Rectangular(f) && RepairColumns(f).Success? && i < |f.rows|
    ensures RepairColumns(f).value[i][NameCol] != Text(TotalSentinel)
  {
    var row := f.rows[i];
    var t := if IsTotalRow(row) then RepairTotalRow(row) else row;
    assert t[NameCol] != Text(TotalSentinel);
  }

  /** Filling names down copies existing names only, so a name absent from
      the column stays absent. */
  lemma FillNamesNoSentinel(rows: seq<Row>)
    requires WidthRows(rows)
    requires forall j :: 0 <= j < |rows| ==> rows[j][NameCol] != Text(TotalSentinel)
    ensures forall i :: 0 <= i < |rows| ==> !IsTotalRow(FillNames(rows)[i])
  {
    var names := Column(rows, NameCol);
    forall i | 0 <= i < |rows|
      ensures !IsTotalRow(FillNames(rows)[i])
    {
      var pre := names[..i + 1];
      var d := LastNonNull(pre);
      if d != Null {
        var j :| 0 <= j < |pre| && pre[j] == d;
        assert pre[j] == rows[j][NameCol];
      }
    }
  }

  lemma PrototypeRows(f: Frame)
    requires Rectangular(f) && RepairColumns(f).Success?
    ensures var out := FillNames(RepairColumns(f).value);
      && (forall i :: 0 <= i < |out| ==> !IsTotalRow(out[i]))
      && (forall i :: 0 <= i < |f.rows| && |f.rows[i]| == Width ==>
           (!IsTotalRow(f.rows[i]) && !IsAdditionalTitleRow(f.rows[i]) && f.rows[i][NameCol] != Null ==> out[i] == f.rows[i]))
      && (forall i :: 0 <= i < |f.rows| && |f.rows[i]| == Width ==>
           (IsTotalRow(f.rows[i]) && !(f.rows[i][4] == Null && f.rows[i][3] != Null) ==>
              out[i][1..] == [Text(TotalSentinel), Null, Null] + f.rows[i][1..5]))
      && (forall i :: 0 <= i < |f.rows| && |f.rows[i]| == Width ==>
           (!IsTotalRow(f.rows[i]) && IsAdditionalTitleRow(f.rows[i]) ==> out[i][1..] == f.rows[i][..7]))
  {
    var repaired := RepairColumns(f).value;
    forall j | 0 <= j < |repaired|
      ensures repaired[j][NameCol] != Text(TotalSentinel)
    {
      RepairedNamesNotSentinel(f, j);
    }
    FillNamesNoSentinel(repaired);
    forall i | 0 <= i < |f.rows| && |f.rows[i]| == Width
      ensures !IsTotalRow(f.rows[i]) && !IsAdditionalTitleRow(f.rows[i]) && f.rows[i][NameCol] != Null ==>
        FillNames(repaired)[i] == f.rows[i]
      ensures IsTotalRow(f.rows[i]) && !(f.rows[i][4] == Null && f.rows[i][3] != Null) ==>
        FillNames(repaired)[i][1..] == [Text(TotalSentinel), Null, Null] + f.rows[i][1..5]
      ensures !IsTotalRow(f.rows[i]) && IsAdditionalTitleRow(f.rows[i]) ==> FillNames(repaired)[i][1..] == f.rows[i][..7]
    {
      PrototypeRow(f, i);
    }
  }

  /** What the prototype does to one row, by the kind of row it is. */
  lemma PrototypeRow(f: Frame, i: nat)
    requires Rectangular(f) && RepairColumns(f).Success? && i < |f.rows| && |f.rows[i]| == Width
    ensures var out := FillNames(RepairColumns(f).value);
      && (!IsTotalRow(f.rows[i]) && !IsAdditionalTitleRow(f.rows[i]) && f.rows[i][NameCol] != Null ==> out[i] == f.rows[i])
      && (IsTotalRow(f.rows[i]) && !(f.rows[i][4] == Null && f.rows[i][3] != Null) ==>
            out[i][1..] == [Text(TotalSentinel), Null, Null] + f.rows[i][1..5])
      && (!IsTotalRow(f.rows[i]) && IsAdditionalTitleRow(f.rows[i]) ==> out[i][1..] == f.rows[i][..7])
  {
    var repaired := RepairColumns(f).value;
    var row := f.rows[i];
    RepairedRow(f, i);
    FilledRow(repaired, i);
    if IsTotalRow(row) {
      TotalRowTail(row);
    }
  }

  lemma RepairedRow(f: Frame, i: nat)
    requires Rectangular(f) && RepairColumns(f).Success? && i < |f.rows|
    ensures var t := if IsTotalRow(f.rows[i]) then RepairTotalRow(f.rows[i]) else f.rows[i];
      RepairColumns(f).value[i] == if IsAdditionalTitleRow(t) then RepairAdditionalTitleRow(t) else t
  {
  }

  lemma FilledRow(rows: seq<Row>, i: nat)
    requires WidthRows(rows) && i < |rows|
    ensures FillNames(rows)[i][1..] == rows[i][1..]
    ensures rows[i][NameCol] != Null ==> FillNames(rows)[i] == rows[i]
  {
    if rows[i][NameCol] != Null {
      FilledNamedRow(FillNames(rows)[i], rows[i]);
    }
  }

  /** Two rows with the same name and the same other cells are equal. */
  lemma FilledNamedRow(a: Row, b: Row)
    requires |a| == |b| > 0 && a[0] == b[0] && a[1..] == b[1..]
    ensures a == b
  {
    assert a == [a[0]] + a[1..];
    assert b == [b[0]] + b[1..];
  }

  lemma TotalRowTail(row: Row)
    requires |row| == Width && IsTotalRow(row)
    ensures var t := RepairTotalRow(row);
      && t[1..] == [Text(TotalSentinel), Null, Null] + row[1..5]
      && (IsAdditionalTitleRow(t) <==> row[4] == Null && row[3] != Null)
  {
  }

  // ---------------------------------------------------------------------
  // Subheaders, campus and college (processData.py:58-63)
  // ---------------------------------------------------------------------

  /** A cleaned row with its organisational context. */
  datatype NormRow = NormRow(cells: Row, campus: string, college: Cell, dept: Cell)

  predicate WidthNorm(rows: seq<NormRow>) {
    forall i :: 0 <= i < |rows| ==> |rows[i].cells| == Width
  }

  /** A row with no Job Title is a department subheader whose name cell holds the department. */
  function SubheaderLabels(rows: seq<Row>): (labels: seq<Cell>)
    requires WidthRows(rows)
    ensures |labels| == |rows|
    ensures forall i :: 0 <= i < |rows| ==>
      labels[i] == if rows[i][TitleCol] == Null then rows[i][NameCol] else Null
  {
    seq(|rows|, i requires 0 <= i < |rows| =>
      if rows[i][TitleCol] == Null then rows[i][NameCol] else Null)
  }

  /** Each row's department: the name on the nearest subheader row at or
      above it (subheaders with no name are skipped); missing above the first. */
  function Departments(rows: seq<Row>): (depts: seq<Cell>)
    requires WidthRows(rows)
    ensures |depts| == |rows|
    ensures forall i :: 0 <= i < |rows| && depts[i] != Null ==>
      exists j :: 0 <= j <= i && rows[j][TitleCol] == Null && rows[j][NameCol] == depts[i]
        && forall k :: j < k <= i && rows[k][TitleCol] == Null ==> rows[k][NameCol] == Null
    ensures forall i :: 0 <= i < |rows| && depts[i] == Null ==>
      forall k :: 0 <= k <= i && rows[k][TitleCol] == Null ==> rows[k][NameCol] == Null
  {
    var labels := SubheaderLabels(rows);
    var depts := FillForward(labels);
    forall i | 0 <= i < |rows|
      ensures depts[i] != Null ==>
        exists j :: 0 <= j <= i && rows[j][TitleCol] == Null && rows[j][NameCol] == depts[i]
          && forall k :: j < k <= i && rows[k][TitleCol] == Null ==> rows[k][NameCol] == Null
      ensures depts[i] == Null ==>
        forall k :: 0 <= k <= i && rows[k][TitleCol] == Null ==> rows[k][NameCol] == Null
    {
      NearestSubheader(rows, labels, depts[i], i);
    }
    depts
  }

  lemma NearestSubheader(rows: seq<Row>, labels: seq<Cell>, d: Cell, i: nat)
    requires WidthRows(rows) && labels == SubheaderLabels(rows) && i < |rows|
    requires d == LastNonNull(labels[..i + 1])
    ensures d != Null ==>
      exists j :: 0 <= j <= i && rows[j][TitleCol] == Null && rows[j][NameCol] == d
        && forall k :: j < k <= i && rows[k][TitleCol] == Null ==> rows[k][NameCol] == Null
    ensures d == Null ==>
      forall k :: 0 <= k <= i && rows[k][TitleCol] == Null ==> rows[k][NameCol] == Null
  {
    var pre := labels[..i + 1];
    if d != Null {
      var j :| 0 <= j < |pre| && pre[j] == d && forall k :: j < k < |pre| ==> pre[k] == Null;
      assert labels[j] == d;
      forall k | j < k <= i && rows[k][TitleCol] == Null
        ensures rows[k][NameCol] == Null
      {
        assert pre[k] == labels[k];
      }
    } else {
      forall k | 0 <= k <= i && rows[k][TitleCol] == Null
        ensures rows[k][NameCol] == Null
      {
        assert pre[k] == labels[k];
      }
    }
  }

  /** Row `i` has a Job Title, so it is kept when the subheaders are dropped. */
  predicate TitledRow(rows: seq<Row>, i: nat)
    requires WidthRows(rows) && i < |rows|
  {
    rows[i][TitleCol] != Null
  }

  /** The positions, from `start` on, of the rows that have a Job Title,
      in increasing order: exactly the rows a drop of the subheaders keeps. */
  function TitledFrom(rows: seq<Row>, start: nat): (idx: seq<nat>)
    requires WidthRows(rows) && start <= |rows|
    ensures |idx| <= |rows| - start
    ensures forall a :: 0 <= a < |idx| ==> start <= idx[a] < |rows| && rows[idx[a]][TitleCol] != Null
    ensures forall a, b :: 0 <= a < b < |idx| ==> idx[a] < idx[b]
    ensures forall i :: start <= i < |rows| && TitledRow(rows, i) ==> i in idx
    decreases |rows| - start
  {
    if start == |rows| then []
    else if rows[start][TitleCol] == Null then TitledFrom(rows, start + 1)
    else [start] + TitledFrom(rows, start + 1)
  }

  function TitledIndices(rows: seq<Row>): (idx: seq<nat>)
    requires WidthRows(rows)
    ensures |idx| <= |rows|
    ensures forall a :: 0 <= a < |idx| ==> idx[a] < |rows| && rows[idx[a]][TitleCol] != Null
    ensures forall a, b :: 0 <= a < b < |idx| ==> idx[a] < idx[b]
    ensures forall i :: 0 <= i < |rows| && TitledRow(rows, i) ==> i in idx
  {
    TitledFrom(rows, 0)
  }

  /** The rows from `start` on that have a Job Title, tagged with campus,
      college and their department. */
  function KeepFrom(rows: seq<Row>, depts: seq<Cell>, start: nat, campus: string, college: Cell): (r: seq<NormRow>)
    requires WidthRows(rows) && |depts| == |rows| && start <= |rows|
    ensures |r| == |TitledFrom(rows, start)|
    ensures forall a :: 0 <= a < |r| ==>
      r[a] == NormRow(rows[TitledFrom(rows, start)[a]], campus, college, depts[TitledFrom(rows, start)[a]])
    decreases |rows| - start
  {
    if start == |rows| then []
    else
      var rest := KeepFrom(rows, depts, start + 1, campus, college);
      if rows[start][TitleCol] == Null then rest
      else [NormRow(rows[start], campus, college, depts[start])] + rest
  }

  /** Rows of `rows` tagged with campus, college and department, keeping
      exactly those with a Job Title, in their order and with repeats. */
  function KeepTitled(rows: seq<Row>, depts: seq<Cell>, campus: string, college: Cell): (r: seq<NormRow>)
    requires WidthRows(rows) && |depts| == |rows|
    ensures |r| == |TitledIndices(rows)|
    ensures forall a :: 0 <= a < |r| ==>
      r[a] == NormRow(rows[TitledIndices(rows)[a]], campus, college, depts[TitledIndices(rows)[a]])
    ensures WidthNorm(r)
    ensures |r| <= |rows|
    ensures forall k :: 0 <= k < |r| ==> r[k].cells[TitleCol] != Null
    ensures forall k :: 0 <= k < |r| ==> r[k].campus == campus && r[k].college == college
    ensures forall k :: 0 <= k < |r| ==>
      exists i :: 0 <= i < |rows| && r[k] == NormRow(rows[i], campus, college, depts[i])
    ensures forall i :: 0 <= i < |rows| && rows[i][TitleCol] != Null ==>
      NormRow(rows[i], campus, college, depts[i]) in r
  {
    var r := KeepFrom(rows, depts, 0, campus, college);
    var idx := TitledIndices(rows);
    forall i | 0 <= i < |rows| && rows[i][TitleCol] != Null
      ensures NormRow(rows[i], campus, college, depts[i]) in r
    {
      assert TitledRow(rows, i);
      var a :| 0 <= a < |idx| && idx[a] == i;
      assert r[a] == NormRow(rows[i], campus, college, depts[i]);
    }
    r
  }

  /** Campus, college and department columns, then the subheader rows dropped
      (lines 59-63); the college is the first cell of the filled table. */
  function Annotate(campus: string, rows: seq<Row>): (r: Result<seq<NormRow>, Error>)
    requires WidthRows(rows)
    ensures r.Failure? <==> |rows| == 0
    ensures r.Failure? ==> r.error == EmptyTable
    ensures r.Success? ==> WidthNorm(r.value)
    ensures r.Success? ==> forall k :: 0 <= k < |r.value| ==>
      r.value[k].cells[TitleCol] != Null && r.value[k].campus == campus && r.value[k].college == rows[0][NameCol]
    ensures r.Success? ==> |r.value| == |TitledIndices(rows)|
    ensures r.Success? ==> forall a :: 0 <= a < |r.value| ==>
      var i := TitledIndices(rows)[a];
      r.value[a] == NormRow(rows[i], campus, rows[0][NameCol], Departments(rows)[i])
  {
    if |rows| == 0 then Failure(EmptyTable)
    else Success(KeepTitled(rows, Departments(rows), campus, rows[0][NameCol]))
  }

  // ---------------------------------------------------------------------
  // Numeric coercion (processData.py:65-72)
  // ---------------------------------------------------------------------

  const NumericCols: seq<nat> := [PresentFteCol, ProposedFteCol, PresentSalaryCol, ProposedSalaryCol]

  /** A column holds text somewhere: pandas then keeps it as strings and the
      string edits apply; otherwise the column is already numeric. */
  predicate ColumnHasText(rows: seq<NormRow>, c: nat)
    requires WidthNorm(rows) && c < Width
  {
    exists i :: 0 <= i < |rows| && rows[i].cells[c].Text?
  }

  /** Coercion of one cell of a column. In a text column a number has no
      string to edit and the string replacement makes it missing. */
  function CoerceCell(cell: Cell, textual: bool): (r: Result<Cell, Error>)
    ensures !textual ==> r == Success(cell)
    ensures textual && r.Success? ==> r.value.Null? || r.value.Num?
    ensures textual && cell.Text? ==> r == CoerceText(cell.s)
    ensures textual && !cell.Text? ==> r == Success(Null)
    ensures r.Failure? ==> r.error == Unparseable
  {
    if !textual then Success(cell)
    else match cell
      case Text(s) => CoerceText(s)
      case _ => Success(Null)
  }

  predicate IsNumeric(cell: Cell) {
    cell.Null? || cell.Num?
  }

  function CoerceRow(row: NormRow, textual: seq<bool>): (r: Result<NormRow, Error>)
    requires |row.cells| == Width && |textual| == 4
    ensures r.Success? <==> forall k :: 0 <= k < 4 ==> CoerceCell(row.cells[NumericCols[k]], textual[k]).Success?
    ensures r.Failure? ==> r.error == Unparseable
    ensures r.Success? ==>
      && |r.value.cells| == Width
      && r.value.cells[..4] == row.cells[..4]
      && r.value.campus == row.campus && r.value.college == row.college && r.value.dept == row.dept
      && forall k :: 0 <= k < 4 ==> r.value.cells[NumericCols[k]] == CoerceCell(row.cells[NumericCols[k]], textual[k]).value
  {
    var a :- CoerceCell(row.cells[4], textual[0]);
    var b :- CoerceCell(row.cells[5], textual[1]);
    var c :- CoerceCell(row.cells[6], textual[2]);
    var d :- CoerceCell(row.cells[7], textual[3]);
    Success(row.(cells := row.cells[4 := a][5 := b][6 := c][7 := d]))
  }

  function CoerceRows(rows: seq<NormRow>, textual: seq<bool>): (r: Result<seq<NormRow>, Error>)
    requires WidthNorm(rows) && |textual| == 4
    ensures r.Success? <==> forall i :: 0 <= i < |rows| ==> CoerceRow(rows[i], textual).Success?
    ensures r.Failure? ==> r.error == Unparseable
    ensures r.Success? ==> |r.value| == |rows|
    ensures r.Success? ==> forall i :: 0 <= i < |rows| ==> r.value[i] == CoerceRow(rows[i], textual).value
    decreases |rows|
  {
    if |rows| == 0 then Success([])
    else
      var head :- CoerceRow(rows[0], textual);
      var tail :- CoerceRows(rows[1..], textual);
      Success([head] + tail)
  }

  /** Some numeric column holds text that is no number. */
  predicate HasUnparseable(rows: seq<NormRow>)
    requires WidthNorm(rows)
  {
    exists i, k :: 0 <= i < |rows| && 0 <= k < 4 && rows[i].cells[NumericCols[k]].Text?
      && CoerceText(rows[i].cells[NumericCols[k]].s).Failure?
  }

  /** The four numeric columns become numbers or missing values. */
  function Coerce(rows: seq<NormRow>): (r: Result<seq<NormRow>, Error>)
    requires WidthNorm(rows)
    ensures r.Success? ==> |r.value| == |rows| && WidthNorm(r.value)
    ensures r.Success? ==> forall i, k :: 0 <= i < |rows| && 0 <= k < 4 ==>
      IsNumeric(r.value[i].cells[NumericCols[k]])
    ensures r.Success? ==> forall i :: 0 <= i < |rows| ==>
      r.value[i].cells[..4] == rows[i].cells[..4] && r.value[i].campus == rows[i].campus
      && r.value[i].college == rows[i].college && r.value[i].dept == rows[i].dept
    ensures r.Success? ==> forall i, k :: 0 <= i < |rows| && 0 <= k < 4 && !ColumnHasText(rows, NumericCols[k]) ==>
      r.value[i].cells[NumericCols[k]] == rows[i].cells[NumericCols[k]]
    ensures r.Success? ==> forall i, k :: 0 <= i < |rows| && 0 <= k < 4 && rows[i].cells[NumericCols[k]].Text? ==>
      Success(r.value[i].cells[NumericCols[k]]) == CoerceText(rows[i].cells[NumericCols[k]].s)
    ensures r.Success? ==> forall i, k :: 0 <= i < |rows| && 0 <= k < 4 ==>
      (ColumnHasText(rows, NumericCols[k]) && !rows[i].cells[NumericCols[k]].Text? ==> r.value[i].cells[NumericCols[k]] == Null)
    ensures r.Failure? <==> HasUnparseable(rows)
    ensures r.Failure? ==> r.error == Unparseable
  {
    var textual := seq(4, k requires 0 <= k < 4 => ColumnHasText(rows, NumericCols[k]));
    CoerceRows(rows, textual)
  }

  /** Coercing a coerced table again changes nothing: no numeric column
      holds text any more, so every cell passes through. */
  lemma CoerceIdempotent(rows: seq<NormRow>, out: seq<NormRow>)
    requires WidthNorm(rows) && Coerce(rows) == Success(out)
    ensures Coerce(out) == Success(out)
  {
    var textual := seq(4, k requires 0 <= k < 4 => ColumnHasText(out, NumericCols[k]));
    forall k | 0 <= k < 4
      ensures !textual[k]
    {
      NoTextAfterCoerce(out, k);
    }
    forall i | 0 <= i < |out|
      ensures CoerceRow(out[i], textual) == Success(out[i])
    {
      CoerceRowKeeps(out[i], textual);
    }
    var again := CoerceRows(out, textual);
    assert again.Success?;
    assert |again.value| == |out|;
    assert again.value == out;
  }

  lemma NoTextAfterCoerce(out: seq<NormRow>, k: nat)
    requires WidthNorm(out) && k < 4
    requires forall i, c :: 0 <= i < |out| && 0 <= c < 4 ==> IsNumeric(out[i].cells[NumericCols[c]])
    ensures !ColumnHasText(out, NumericCols[k])
  {
  }

  /** With no text column, a row's coercion returns the row itself. */
  lemma CoerceRowKeeps(row: NormRow, textual: seq<bool>)
    requires |row.cells| == Width && |textual| == 4
    requires forall k :: 0 <= k < 4 ==> !textual[k]
    ensures CoerceRow(row, textual) == Success(row)
  {
    var r := CoerceRow(row, textual);
    assert r.Success?;
    forall c | 0 <= c < Width
      ensures r.value.cells[c] == row.cells[c]
    {
      if c < 4 {
        assert r.value.cells[c] == r.value.cells[..4][c];
      } else {
        assert c == NumericCols[c - 4];
      }
    }
    assert r.value.cells == row.cells;
  }

  // ---------------------------------------------------------------------
  // The whole per-unit normaliser (processData.py:36-72)
  // ---------------------------------------------------------------------

  predicate Normalized(rows: seq<NormRow>, campus: string) {
    && WidthNorm(rows)
    && (forall k :: 0 <= k < |rows| ==> rows[k].cells[TitleCol] != Null && rows[k].campus == campus)
    && (forall k, j :: 0 <= k < |rows| && 0 <= j < |rows| ==> rows[k].college == rows[j].college)
    && (forall k, c :: 0 <= k < |rows| && 0 <= c < 4 ==> IsNumeric(rows[k].cells[NumericCols[c]]))
  }

  /** Some row with a Job Title holds text in column `c` of the prototype table. */
  predicate TitledText(rows: seq<Row>, c: nat)
    requires WidthRows(rows) && c < Width
  {
    exists i :: 0 <= i < |rows| && rows[i][TitleCol] != Null && rows[i][c].Text?
  }

  /** Some row with a Job Title holds, in a numeric column, text that is no number. */
  predicate TitledUnparseable(rows: seq<Row>)
    requires WidthRows(rows)
  {
    exists i, k :: 0 <= i < |rows| && 0 <= k < 4 && rows[i][TitleCol] != Null
      && rows[i][NumericCols[k]].Text? && CoerceText(rows[i][NumericCols[k]].s).Failure?
  }

  /** What a numeric cell of a kept row becomes: text is parsed, a missing
      value stays missing, and a number survives unless its column held text. */
  predicate CoercedFrom(src: Cell, out: Cell, textual: bool) {
    && (src.Text? ==> Success(out) == CoerceText(src.s))
    && (src.Null? ==> out == Null)
    && (src.Num? ==> out == if textual then Null else src)
  }

  /** One scraped college table, normalised (processData.py:36-72): the
      prototype table's rows with a Job Title, in order, each with campus,
      college (the first name of the table) and department, and with its
      numeric columns parsed. */
  function CollegeSalaries(campus: string, f: Frame): (r: Result<seq<NormRow>, Error>)
    requires Rectangular(f)
    ensures RepairColumns(f).Failure? ==> r == Failure(RepairColumns(f).error)
    ensures RepairColumns(f).Success? && |f.rows| == 0 ==> r == Failure(EmptyTable)
    ensures Prototype(f).Success? && |f.rows| > 0 ==>
      (r.Failure? <==> TitledUnparseable(Prototype(f).value))
    ensures Prototype(f).Success? && |f.rows| > 0 && r.Failure? ==> r.error == Unparseable
    ensures r.Success? ==> Normalized(r.value, campus)
    ensures r.Success? ==> |r.value| == |TitledIndices(Prototype(f).value)|
    ensures r.Success? ==> forall a :: 0 <= a < |r.value| ==>
      var p := Prototype(f).value;
      var i := TitledIndices(p)[a];
      && CoercedRowFrom(p, p[i], r.value[a].cells)
      && r.value[a].campus == campus && r.value[a].college == p[0][NameCol]
      && r.value[a].dept == Departments(p)[i]
  {
    var filled :- Prototype(f);
    var annotated :- Annotate(campus, filled);
    AnnotatedKeepsCells(campus, filled);
    KeptText(filled, annotated);
    var r := Coerce(annotated);
    if r.Success? then
      CoerceKeepsNormalized(campus, filled[0][NameCol], annotated, r.value);
      CoercedRows(filled, annotated, r.value);
      r
    else r
  }

  /** `out` holds, in order, the cells of the rows of `rows` that have a Job Title. */
  predicate KeptCells(rows: seq<Row>, out: seq<NormRow>)
    requires WidthRows(rows)
  {
    && |out| == |TitledIndices(rows)|
    && forall a :: 0 <= a < |out| ==> out[a].cells == rows[TitledIndices(rows)[a]]
  }

  /** The annotated table keeps the cells of the titled rows. */
  lemma AnnotatedKeepsCells(campus: string, rows: seq<Row>)
    requires WidthRows(rows) && |rows| > 0
    ensures KeptCells(rows, Annotate(campus, rows).value)
  {
  }

  /** A table of kept rows holds text in a column exactly when a titled row
      of its source does, and fails to parse exactly when a titled row does. */
  lemma KeptText(rows: seq<Row>, out: seq<NormRow>)
    requires WidthRows(rows) && KeptCells(rows, out)
    ensures WidthNorm(out)
    ensures forall c :: 0 <= c < Width ==> (ColumnHasText(out, c) <==> TitledText(rows, c))
    ensures HasUnparseable(out) <==> TitledUnparseable(rows)
  {
    KeptWidth(rows, out);
    forall c | 0 <= c < Width
      ensures ColumnHasText(out, c) <==> TitledText(rows, c)
    {
      KeptColumnText(rows, out, c);
    }
    KeptUnparseable(rows, out);
  }

  lemma KeptWidth(rows: seq<Row>, out: seq<NormRow>)
    requires WidthRows(rows) && KeptCells(rows, out)
    ensures WidthNorm(out)
  {
  }

  lemma KeptColumnText(rows: seq<Row>, out: seq<NormRow>, c: nat)
    requires WidthRows(rows) && KeptCells(rows, out) && c < Width
    ensures WidthNorm(out)
    ensures ColumnHasText(out, c) <==> TitledText(rows, c)
  {
    KeptWidth(rows, out);
    var idx := TitledIndices(rows);
    if TitledText(rows, c) {
      var i :| 0 <= i < |rows| && rows[i][TitleCol] != Null && rows[i][c].Text?;
      assert TitledRow(rows, i);
      var a :| 0 <= a < |idx| && idx[a] == i;
      assert out[a].cells[c].Text?;
    }
    if ColumnHasText(out, c) {
      var a :| 0 <= a < |out| && out[a].cells[c].Text?;
      assert rows[idx[a]][c].Text?;
    }
  }

  lemma KeptUnparseable(rows: seq<Row>, out: seq<NormRow>)
    requires WidthRows(rows) && KeptCells(rows, out)
    ensures WidthNorm(out)
    ensures HasUnparseable(out) <==> TitledUnparseable(rows)
  {
    KeptWidth(rows, out);
    if TitledUnparseable(rows) {
      TitledUnparseableKept(rows, out);
    }
    if HasUnparseable(out) {
      KeptUnparseableTitled(rows, out);
    }
  }

  lemma TitledUnparseableKept(rows: seq<Row>, out: seq<NormRow>)
    requires WidthRows(rows) && KeptCells(rows, out) && WidthNorm(out)
    requires TitledUnparseable(rows)
    ensures HasUnparseable(out)
  {
    var idx := TitledIndices(rows);
    var i, k :| 0 <= i < |rows| && 0 <= k < 4 && rows[i][TitleCol] != Null
      && rows[i][NumericCols[k]].Text? && CoerceText(rows[i][NumericCols[k]].s).Failure?;
    assert TitledRow(rows, i);
    var a :| 0 <= a < |idx| && idx[a] == i;
    assert out[a].cells == rows[i];
  }

  lemma KeptUnparseableTitled(rows: seq<Row>, out: seq<NormRow>)
    requires WidthRows(rows) && KeptCells(rows, out) && WidthNorm(out)
    requires HasUnparseable(out)
    ensures TitledUnparseable(rows)
  {
    var idx := TitledIndices(rows);
    var a, k :| 0 <= a < |out| && 0 <= k < 4 && out[a].cells[NumericCols[k]].Text?
      && CoerceText(out[a].cells[NumericCols[k]].s).Failure?;
    assert rows[idx[a]] == out[a].cells;
  }

  /** Row `out` is the coercion of the titled row `src` of `rows`: the
      first four cells are kept and each numeric cell (columns 4-7) is coerced. */
  predicate CoercedRowFrom(rows: seq<Row>, src: Row, out: Row)
    requires WidthRows(rows) && |src| == Width && |out| == Width
  {
    && out[..4] == src[..4]
    && forall c :: 4 <= c < Width ==> CoercedFrom(src[c], out[c], TitledText(rows, c))
  }

  /** Each coerced row, described against the row of the source it came from. */
  lemma CoercedRows(rows: seq<Row>, kept: seq<NormRow>, out: seq<NormRow>)
    requires WidthRows(rows) && KeptCells(rows, kept) && WidthNorm(kept)
    requires Coerce(kept) == Success(out)
    ensures |out| == |TitledIndices(rows)| && WidthNorm(out)
    ensures forall a :: 0 <= a < |out| ==>
      CoercedRowFrom(rows, rows[TitledIndices(rows)[a]], out[a].cells)
  {
    forall a | 0 <= a < |out|
      ensures CoercedRowFrom(rows, rows[TitledIndices(rows)[a]], out[a].cells)
    {
      CoercedRow(rows, kept, out, a);
    }
  }

  lemma CoercedRow(rows: seq<Row>, kept: seq<NormRow>, out: seq<NormRow>, a: nat)
    requires WidthRows(rows) && KeptCells(rows, kept) && WidthNorm(kept)
    requires Coerce(kept) == Success(out) && a < |out|
    ensures a < |TitledIndices(rows)| && |out[a].cells| == Width
    ensures CoercedRowFrom(rows, rows[TitledIndices(rows)[a]], out[a].cells)
  {
    var i := TitledIndices(rows)[a];
    assert kept[a].cells == rows[i];
    forall c | 4 <= c < Width
      ensures CoercedFrom(rows[i][c], out[a].cells[c], TitledText(rows, c))
    {
      CoercedCell(rows, kept, out, a, c);
    }
  }

  lemma CoercedCell(rows: seq<Row>, kept: seq<NormRow>, out: seq<NormRow>, a: nat, c: nat)
    requires WidthRows(rows) && KeptCells(rows, kept) && WidthNorm(kept)
    requires Coerce(kept) == Success(out) && a < |out| && 4 <= c < Width
    ensures a < |TitledIndices(rows)| && |out[a].cells| == Width
    ensures CoercedFrom(rows[TitledIndices(rows)[a]][c], out[a].cells[c], TitledText(rows, c))
  {
    CoercedCellOfKept(kept, out, a, c);
    KeptColumnText(rows, kept, c);
    assert kept[a].cells == rows[TitledIndices(rows)[a]];
  }

  /** One numeric cell of a coerced table against the same cell before. */
  lemma CoercedCellOfKept(rows: seq<NormRow>, out: seq<NormRow>, a: nat, c: nat)
    requires WidthNorm(rows) && Coerce(rows) == Success(out) && a < |out| && 4 <= c < Width
    ensures |out[a].cells| == Width
    ensures CoercedFrom(rows[a].cells[c], out[a].cells[c], ColumnHasText(rows, c))
  {
    assert NumericCols[c - 4] == c;
  }

  lemma CoerceKeepsNormalized(campus: string, college: Cell, rows: seq<NormRow>, out: seq<NormRow>)
    requires WidthNorm(rows) && Coerce(rows) == Success(out)
    requires forall k :: 0 <= k < |rows| ==>
      rows[k].cells[TitleCol] != Null && rows[k].campus == campus && rows[k].college == college
    ensures Normalized(out, campus)
  {
    forall k | 0 <= k < |out|
      ensures out[k].cells[TitleCol] != Null && out[k].campus == campus && out[k].college == college
    {
      assert out[k].cells[..4] == rows[k].cells[..4];
      assert out[k].cells[TitleCol] == out[k].cells[..4][TitleCol];
    }
  }

  /** When the first row is an ordinary one, the college is the raw table's first cell. */
  lemma CollegeIsFirstCell(campus: string, f: Frame)
    requires Rectangular(f) && CollegeSalaries(campus, f).Success?
    requires |f.rows| > 0 && !IsTotalRow(f.rows[0]) && f.rows[0][NameCol] != Null
    requires |f.rows[0]| == Width && !IsAdditionalTitleRow(f.rows[0])
    ensures forall k :: 0 <= k < |CollegeSalaries(campus, f).value| ==>
      CollegeSalaries(campus, f).value[k].college == f.rows[0][NameCol]
  {
    var repaired := RepairColumns(f).value;
    assert repaired[0] == f.rows[0];
    var filled := FillNames(repaired);
    assert filled[0][NameCol] == f.rows[0][NameCol];
  }
}
