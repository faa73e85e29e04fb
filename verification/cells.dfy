/** Cells and rows of the fixed 8-column Gray Book table, the errors that
    abort processing, and the forward fill used for names and departments. */
module Cells {

  /** One table cell: missing (NaN/None), a string, or a number. */
  datatype Cell = Null | Text(s: string) | Num(v: real)

  type Row = seq<Cell>

  /** The name the scraped table puts on an employee's combined-total row. */
  const TotalSentinel: string := "Employee Total for All Jobs..."

  /** Column layout of a unit's table. */
  const Width: nat := 8
  const NameCol: nat := 0
  const TitleCol: nat := 1
  const PresentFteCol: nat := 4
  const ProposedFteCol: nat := 5
  const PresentSalaryCol: nat := 6
  const ProposedSalaryCol: nat := 7

  /** Why processing aborts. */
  datatype Error =
    | ColumnCount             // the table does not have exactly 8 columns
    | TotalRowTrailingNotNull // a total row has data in one of the last 3 columns
    | LastColumnName          // the last column is not 'Proposed Salary'
    | EmptyTable              // the college cell (first row, first column) does not exist
    | Unparseable             // a numeric cell's text is not a number
    | NullJobTitle            // a job title is still missing when titles are combined
    | NonTextJobTitle         // a job title to be joined is a number
    | NothingToConcatenate    // there is no unit table to concatenate

  /** The nearest non-null cell of `s`, searching from its end; Null if none. */
  function LastNonNull(s: seq<Cell>): (r: Cell)
    ensures r != Null ==> exists j :: 0 <= j < |s| && s[j] == r && forall k :: j < k < |s| ==> s[k] == Null
    ensures r == Null ==> forall k :: 0 <= k < |s| ==> s[k] == Null
  {
    if |s| == 0 then Null
    else if s[|s| - 1] != Null then s[|s| - 1]
    else LastNonNull(s[..|s| - 1])
  }

  lemma {:induction false} LastNonNullAppend(a: seq<Cell>, b: seq<Cell>)
    ensures LastNonNull(a + b) == if LastNonNull(b) != Null then LastNonNull(b) else LastNonNull(a)
    decreases |b|
  {
    if |b| == 0 {
      assert a + b == a;
    } else {
      assert (a + b)[..|a + b| - 1] == a + b[..|b| - 1];
      LastNonNullAppend(a, b[..|b| - 1]);
    }
  }

  /** Left-to-right scan that carries the last non-null cell seen. */
  function FillFrom(carry: Cell, s: seq<Cell>): (r: seq<Cell>)
    ensures |r| == |s|
    decreases |s|
  {
    if |s| == 0 then []
    else
      var c := if s[0] != Null then s[0] else carry;
      [c] + FillFrom(c, s[1..])
  }

  lemma {:induction false} FillFromIsLastNonNull(carry: Cell, s: seq<Cell>, i: nat)
    requires i < |s|
    ensures FillFrom(carry, s)[i] == LastNonNull([carry] + s[..i + 1])
    decreases i
  {
    var c := if s[0] != Null then s[0] else carry;
    assert LastNonNull([carry] + s[..1]) == c by {
      assert [carry] + s[..1] == [carry, s[0]];
      assert [carry, s[0]][..1] == [carry];
      assert [carry][..0] == [];
      assert LastNonNull([carry]) == carry;
    }
    if i > 0 {
      FillFromIsLastNonNull(c, s[1..], i - 1);
      assert s[1..][..i] == s[1..i + 1];
      assert [carry] + s[..i + 1] == ([carry] + s[..1]) + s[1..i + 1];
      assert [c] + s[1..i + 1] == [c] + s[1..i + 1];
      LastNonNullAppend([carry] + s[..1], s[1..i + 1]);
      LastNonNullAppend([c], s[1..i + 1]);
      assert LastNonNull([c]) == c by {
        assert [c][..0] == [];
      }
    }
  }

  lemma LastNonNullSingleNull(s: seq<Cell>)
    ensures LastNonNull([Null] + s) == LastNonNull(s)
  {
    LastNonNullAppend([Null], s);
    assert [Null][..0] == [];
  }

  /** Forward fill: every missing cell takes the nearest
      earlier non-missing cell; cells before the first non-missing one stay missing. */
  function FillForward(s: seq<Cell>): (r: seq<Cell>)
    ensures |r| == |s|
    ensures forall i :: 0 <= i < |s| ==> r[i] == LastNonNull(s[..i + 1])
    ensures forall i :: 0 <= i < |s| && s[i] != Null ==> r[i] == s[i]
    ensures forall i :: 0 <= i < |s| && s[i] == Null ==> r[i] == LastNonNull(s[..i])
  {
    var r := FillFrom(Null, s);
    forall i | 0 <= i < |s|
      ensures r[i] == LastNonNull(s[..i + 1])
    {
      FillFromIsLastNonNull(Null, s, i);
      LastNonNullSingleNull(s[..i + 1]);
    }
    forall i | 0 <= i < |s| && s[i] == Null
      ensures LastNonNull(s[..i + 1]) == LastNonNull(s[..i])
    {
      assert s[..i + 1][..i] == s[..i];
    }
    r
  }

  /** A forward-filled column keeps no gaps once a non-null cell has appeared. */
  lemma {:induction false} FillForwardNoGapAfterFirst(s: seq<Cell>, k: nat, i: nat)
    requires k <= i < |s| && s[k] != Null
    ensures FillForward(s)[i] != Null
    decreases i - k
  {
    if i > k {
      FillForwardNoGapAfterFirst(s, k, i - 1);
      var r := FillForward(s);
      if s[i] == Null {
        assert r[i] == LastNonNull(s[..i]);
        assert r[i - 1] == LastNonNull(s[..i]);
      }
    }
  }
}
