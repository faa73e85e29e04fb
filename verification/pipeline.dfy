/** The whole pipeline of processData.py:83-123: every unit's table is
    normalised, the results are concatenated in order, then aggregated. */
module Pipeline {
  import opened Wrappers
  import opened Cells
  import opened Normalize
  import opened Aggregation

  /** One fetched table and the campus it belongs to. */
  datatype Unit = Unit(campus: string, table: Frame)

  predicate Tables(units: seq<Unit>) {
    forall i :: 0 <= i < |units| ==> Rectangular(units[i].table)
  }

  function NormalizeUnit(u: Unit): Result<seq<NormRow>, Error>
    requires Rectangular(u.table)
  {
    CollegeSalaries(u.campus, u.table)
  }

  /** Rows every normalised unit delivers: 8 columns and a job title. */
  predicate Titled(rows: seq<NormRow>) {
    WidthNorm(rows) && forall k :: 0 <= k < |rows| ==> Title(rows[k]) != Null
  }

  /** Every row comes from one of the units' campuses. */
  predicate FromCampuses(rows: seq<NormRow>, units: seq<Unit>) {
    forall k :: 0 <= k < |rows| ==> rows[k].campus in Campuses(units)
  }

  function Campuses(units: seq<Unit>): (r: seq<string>)
    ensures |r| == |units| && forall i :: 0 <= i < |units| ==> r[i] == units[i].campus
  {
    seq(|units|, i requires 0 <= i < |units| => units[i].campus)
  }

  lemma NormalizedUnit(u: Unit, units: seq<Unit>)
    requires Rectangular(u.table) && NormalizeUnit(u).Success? && u in units
    ensures Titled(NormalizeUnit(u).value) && FromCampuses(NormalizeUnit(u).value, units)
  {
    var rows := NormalizeUnit(u).value;
    assert Normalized(rows, u.campus);
    var i :| 0 <= i < |units| && units[i] == u;
    NormalizedFromUnit(rows, units, i);
  }

  lemma NormalizedFromUnit(rows: seq<NormRow>, units: seq<Unit>, i: nat)
    requires i < |units| && Normalized(rows, units[i].campus)
    ensures Titled(rows) && FromCampuses(rows, units)
  {
    forall k | 0 <= k < |rows|
      ensures Title(rows[k]) != Null && rows[k].campus == Campuses(units)[i]
    {
    }
  }

  lemma AppendRows(a: seq<NormRow>, b: seq<NormRow>, units: seq<Unit>)
    requires Titled(a) && FromCampuses(a, units)
    requires Titled(b) && FromCampuses(b, units)
    ensures Titled(a + b) && FromCampuses(a + b, units)
  {
    var rows := a + b;
    forall k | 0 <= k < |rows|
      ensures |rows[k].cells| == Width && Title(rows[k]) != Null && rows[k].campus in Campuses(units)
    {
      if k < |a| {
        assert rows[k] == a[k];
      } else {
        assert rows[k] == b[k - |a|];
      }
    }
  }

  /** Each unit's outcome, in unit order. */
  function Outcomes(units: seq<Unit>): (outs: seq<Result<seq<NormRow>, Error>>)
    requires Tables(units)
    ensures |outs| == |units| && forall i :: 0 <= i < |units| ==> outs[i] == NormalizeUnit(units[i])
  {
    seq(|units|, i requires 0 <= i < |units| => NormalizeUnit(units[i]))
  }

  /** The processed units' rows, one unit after the other; the first unit
      whose processing aborted aborts the whole run. */
  function ConcatRows(outs: seq<Result<seq<NormRow>, Error>>): (r: Result<seq<NormRow>, Error>)
    ensures r.Success? <==> forall i :: 0 <= i < |outs| ==> outs[i].Success?
    ensures r.Failure? ==>
      exists i :: 0 <= i < |outs| && outs[i] == Failure(r.error) && forall j :: 0 <= j < i ==> outs[j].Success?
    ensures r.Success? ==> |r.value| == TotalRows(outs)
  {
    if |outs| == 0 then Success([])
    else if outs[0].Failure? then Failure(outs[0].error)
    else
      var rest := ConcatRows(outs[1..]);
      assert forall i :: 1 <= i < |outs| ==> outs[1..][i - 1] == outs[i];
      if rest.Failure? then Failure(rest.error) else Success(outs[0].value + rest.value)
  }

  /** How many rows the successful outcomes hold together. */
  function TotalRows(outs: seq<Result<seq<NormRow>, Error>>): nat {
    if |outs| == 0 then 0
    else (if outs[0].Success? then |outs[0].value| else 0) + TotalRows(outs[1..])
  }

  /** Unit `i`'s rows sit, unchanged, right after the rows of the units before it. */
  lemma {:induction false} ConcatRowsPlaces(outs: seq<Result<seq<NormRow>, Error>>, i: nat)
    requires ConcatRows(outs).Success? && i < |outs|
    ensures TotalRows(outs[..i]) + |outs[i].value| <= |ConcatRows(outs).value|
    ensures ConcatRows(outs).value[TotalRows(outs[..i]) .. TotalRows(outs[..i]) + |outs[i].value|] == outs[i].value
    decreases |outs|
  {
    var all := ConcatRows(outs).value;
    var rest := outs[1..];
    assert forall j :: 1 <= j < |outs| ==> rest[j - 1] == outs[j];
    assert all == outs[0].value + ConcatRows(rest).value;
    if i == 0 {
      assert outs[..0] == [];
      assert all[..|outs[0].value|] == outs[0].value;
    } else {
      ConcatRowsPlaces(rest, i - 1);
      assert outs[..i][1..] == rest[..i - 1];
      assert TotalRows(outs[..i]) == |outs[0].value| + TotalRows(rest[..i - 1]);
      var lo := TotalRows(rest[..i - 1]);
      var n := |outs[0].value|;
      assert all[n + lo .. n + lo + |outs[i].value|] == ConcatRows(rest).value[lo .. lo + |rest[i - 1].value|];
    }
  }

  /** The concatenation of the processed units in order: it refuses an empty list
      of tables, and otherwise joins the units' rows. */
  function Concat(outs: seq<Result<seq<NormRow>, Error>>): (r: Result<seq<NormRow>, Error>)
    ensures r.Success? <==> |outs| > 0 && forall i :: 0 <= i < |outs| ==> outs[i].Success?
    ensures |outs| == 0 ==> r == Failure(NothingToConcatenate)
    ensures |outs| > 0 && r.Failure? ==>
      exists i :: 0 <= i < |outs| && outs[i] == Failure(r.error) && forall j :: 0 <= j < i ==> outs[j].Success?
    ensures r.Success? ==> |r.value| == TotalRows(outs)
    ensures r.Success? ==> forall i :: 0 <= i < |outs| ==>
      TotalRows(outs[..i]) + |outs[i].value| <= |r.value|
      && r.value[TotalRows(outs[..i]) .. TotalRows(outs[..i]) + |outs[i].value|] == outs[i].value
  {
    if |outs| == 0 then Failure(NothingToConcatenate)
    else
      var r := ConcatRows(outs);
      if r.Success? then
        forall i | 0 <= i < |outs|
          ensures TotalRows(outs[..i]) + |outs[i].value| <= |r.value|
            && r.value[TotalRows(outs[..i]) .. TotalRows(outs[..i]) + |outs[i].value|] == outs[i].value
        {
          ConcatRowsPlaces(outs, i);
        }
        r
      else r
  }

  /** The concatenated table keeps every unit's guarantees: 8 columns, a
      job title on every row, and a campus that names one of the units. */
  lemma {:induction false} ConcatTitled(outs: seq<Result<seq<NormRow>, Error>>, units: seq<Unit>)
    requires forall i :: 0 <= i < |outs| && outs[i].Success? ==> Titled(outs[i].value) && FromCampuses(outs[i].value, units)
    requires ConcatRows(outs).Success?
    ensures Titled(ConcatRows(outs).value) && FromCampuses(ConcatRows(outs).value, units)
    decreases |outs|
  {
    if |outs| > 0 {
      assert forall i :: 1 <= i < |outs| ==> outs[1..][i - 1] == outs[i];
      ConcatTitled(outs[1..], units);
      AppendRows(outs[0].value, ConcatRows(outs[1..]).value, units);
    }
  }

  lemma OutcomesTitled(units: seq<Unit>)
    requires Tables(units)
    ensures forall i :: 0 <= i < |units| && Outcomes(units)[i].Success? ==>
      Titled(Outcomes(units)[i].value) && FromCampuses(Outcomes(units)[i].value, units)
  {
    forall i | 0 <= i < |units| && Outcomes(units)[i].Success?
      ensures Titled(Outcomes(units)[i].value) && FromCampuses(Outcomes(units)[i].value, units)
    {
      NormalizedUnit(units[i], units);
    }
  }

  /** The exported `salaries` table built from all units: the first unit
      failure, or the aggregation of the concatenated rows, which never
      meets a missing job title. */
  function Salaries(units: seq<Unit>): (r: Result<seq<Employee>, Error>)
    requires Tables(units)
    ensures r.Success? <==> Concat(Outcomes(units)).Success? && !NumericGroupTitles(Concat(Outcomes(units)).value)
    ensures r.Failure? && r.error != NonTextJobTitle ==> Concat(Outcomes(units)) == Failure(r.error)
    ensures r != Failure(NullJobTitle) || Concat(Outcomes(units)) == Failure(NullJobTitle)
    ensures r.Success? ==> forall a, b :: 0 <= a < b < |r.value| ==>
      SalaryKey(r.value[a].salary) != SalaryKey(r.value[b].salary)
    ensures r.Success? ==> forall i :: 0 <= i < |Concat(Outcomes(units)).value| ==>
      WithPerFte(RecordOf(Concat(Outcomes(units)).value, i)) in r.value
    ensures r.Success? ==> forall e :: e in r.value ==>
      exists i :: 0 <= i < |Concat(Outcomes(units)).value| && e == WithPerFte(RecordOf(Concat(Outcomes(units)).value, i))
  {
    var rows :- Concat(Outcomes(units));
    OutcomesTitled(units);
    ConcatTitled(Outcomes(units), units);
    Aggregate(rows)
  }
}
