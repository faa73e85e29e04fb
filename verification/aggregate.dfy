/** The cross-unit aggregation of processData.py:91-123: authoritative
    per-employee totals, the combined job-title string per
    (name, campus, college, dept), duplicate collapse and salary per FTE. */
module Aggregation {
  import opened Wrappers
  import opened Cells
  import opened Normalize

  /** Column c of a row; a column the row does not have reads as missing.
      Every row of the concatenated table has all 8 columns. */
  function CellAt(row: NormRow, c: nat): Cell {
    if c < |row.cells| then row.cells[c] else Null
  }

  function Name(row: NormRow): Cell {
    CellAt(row, NameCol)
  }

  function Title(row: NormRow): Cell {
    CellAt(row, TitleCol)
  }

  /** A numeric cell's value; a missing cell is None. */
  function NumOf(c: Cell): Option<real> {
    if c.Num? then Some(c.v) else None
  }

  // ----- Rows per employee (line 91) -----

  /** How many rows carry `name` (the per-name row count of processData.py:91). */
  function RowCount(rows: seq<NormRow>, name: Cell): (n: nat)
    ensures n <= |rows|
  {
    if |rows| == 0 then 0
    else RowCount(rows[..|rows| - 1], name) + (if Name(rows[|rows| - 1]) == name then 1 else 0)
  }

  lemma {:induction false} RowCountPositive(rows: seq<NormRow>, name: Cell, i: nat)
    requires i < |rows| && Name(rows[i]) == name
    ensures RowCount(rows, name) >= 1
  {
    var n := |rows| - 1;
    if i < n {
      RowCountPositive(rows[..n], name, i);
    }
  }

  /** Two different rows with the same name count at least twice. */
  lemma {:induction false} RowCountAtLeastTwo(rows: seq<NormRow>, name: Cell, i: nat, j: nat)
    requires i < j < |rows| && Name(rows[i]) == name && Name(rows[j]) == name
    ensures RowCount(rows, name) >= 2
  {
    var n := |rows| - 1;
    if j == n {
      RowCountPositive(rows[..n], name, i);
    } else {
      RowCountAtLeastTwo(rows[..n], name, i, j);
    }
  }

  /** A name carried by one row only counts once. */
  lemma {:induction false} RowCountOnly(rows: seq<NormRow>, name: Cell, i: nat)
    requires i < |rows| && Name(rows[i]) == name
    requires forall j :: 0 <= j < |rows| && j != i ==> Name(rows[j]) != name
    ensures RowCount(rows, name) == 1
  {
    var n := |rows| - 1;
    if i < n {
      RowCountOnly(rows[..n], name, i);
    } else {
      RowCountNone(rows[..n], name);
    }
  }

  lemma {:induction false} RowCountNone(rows: seq<NormRow>, name: Cell)
    requires forall j :: 0 <= j < |rows| ==> Name(rows[j]) != name
    ensures RowCount(rows, name) == 0
  {
    if |rows| > 0 {
      RowCountNone(rows[..|rows| - 1], name);
    }
  }

  // ----- Authoritative totals (lines 94-97) -----

  /** A row that gives `name` a total in column `col`: one of the name's
      "Employee Total for All Jobs..." rows with a value there. */
  predicate Contributes(row: NormRow, name: Cell, col: nat) {
    Name(row) == name && Title(row) == Text(TotalSentinel) && NumOf(CellAt(row, col)).Some?
  }

  function MaxOption(a: Option<real>, b: Option<real>): Option<real> {
    if a.None? then b
    else if b.None? then a
    else if a.value >= b.value then a else b
  }

  /** The largest value in column `col` over the sentinel rows of `name`,
      missing values skipped, None when there is none (the group maximum of line 96). */
  function SentinelMax(rows: seq<NormRow>, name: Cell, col: nat): (m: Option<real>)
    ensures m.None? <==> forall j :: 0 <= j < |rows| ==> !Contributes(rows[j], name, col)
    ensures m.Some? ==> exists j :: 0 <= j < |rows| && Contributes(rows[j], name, col) && NumOf(CellAt(rows[j], col)) == m
    ensures m.Some? ==> forall j :: 0 <= j < |rows| && Contributes(rows[j], name, col) ==> NumOf(CellAt(rows[j], col)).value <= m.value
  {
    if |rows| == 0 then None
    else
      var n := |rows| - 1;
      var last := rows[n];
      var v := if Contributes(last, name, col) then NumOf(CellAt(last, col)) else None;
      MaxOption(SentinelMax(rows[..n], name, col), v)
  }

  /** The total the employee on row i is credited with in column `col`: the
      row's own value when the name occurs once, otherwise the max over the
      name's total rows; a row without a name has no total. */
  function EmployeeTotal(rows: seq<NormRow>, i: nat, col: nat): Option<real>
    requires i < |rows|
  {
    var name := Name(rows[i]);
    if name == Null then None
    else if RowCount(rows, name) == 1 then NumOf(CellAt(rows[i], col))
    else SentinelMax(rows, name, col)
  }

  /** An employee whose name occurs on no other row keeps the row's own value. */
  lemma EmployeeTotalSingle(rows: seq<NormRow>, i: nat, col: nat)
    requires i < |rows| && Name(rows[i]) != Null
    requires forall j :: 0 <= j < |rows| && j != i ==> Name(rows[j]) != Name(rows[i])
    ensures EmployeeTotal(rows, i, col) == NumOf(CellAt(rows[i], col))
  {
    RowCountOnly(rows, Name(rows[i]), i);
  }

  /** An employee with several rows is credited with the largest total shown
      on one of their total rows, and with nothing when no total row shows one. */
  lemma EmployeeTotalMultiple(rows: seq<NormRow>, i: nat, j: nat, col: nat)
    requires i < |rows| && j < |rows| && i != j && Name(rows[i]) != Null && Name(rows[j]) == Name(rows[i])
    ensures EmployeeTotal(rows, i, col).None? <==> forall k :: 0 <= k < |rows| ==> !Contributes(rows[k], Name(rows[i]), col)
    ensures EmployeeTotal(rows, i, col).Some? ==>
      exists k :: 0 <= k < |rows| && Contributes(rows[k], Name(rows[i]), col) && NumOf(CellAt(rows[k], col)) == EmployeeTotal(rows, i, col)
    ensures EmployeeTotal(rows, i, col).Some? ==>
      forall k :: 0 <= k < |rows| && Contributes(rows[k], Name(rows[i]), col) ==> NumOf(CellAt(rows[k], col)).value <= EmployeeTotal(rows, i, col).value
  {
    if i < j {
      RowCountAtLeastTwo(rows, Name(rows[i]), i, j);
    } else {
      RowCountAtLeastTwo(rows, Name(rows[i]), j, i);
    }
  }

  /** Every row of an employee carries the same total. */
  lemma EmployeeTotalShared(rows: seq<NormRow>, i: nat, j: nat, col: nat)
    requires i < |rows| && j < |rows| && Name(rows[i]) == Name(rows[j])
    ensures EmployeeTotal(rows, i, col) == EmployeeTotal(rows, j, col)
  {
    var name := Name(rows[i]);
    if name != Null && i != j {
      if i < j {
        RowCountAtLeastTwo(rows, name, i, j);
      } else {
        RowCountAtLeastTwo(rows, name, j, i);
      }
    }
  }

  // ----- Combined job titles (lines 107-109) -----

  /** The grouping key (name, campus, college, dept). */
  datatype Key = Key(name: Cell, campus: string, college: Cell, dept: Cell)

  function KeyOf(row: NormRow): Key {
    Key(Name(row), row.campus, row.college, row.dept)
  }

  /** Rows with a missing key part belong to no group. */
  predicate KeyComplete(k: Key) {
    k.name != Null && k.college != Null && k.dept != Null
  }

  /** A title that takes part in the join: not a total row's, not empty. */
  predicate Joinable(t: string) {
    t != TotalSentinel && t != ""
  }

  /** The joinable titles of the rows keyed `k`, in row order. */
  function GroupTitles(rows: seq<NormRow>, k: Key): (parts: seq<string>)
    ensures |parts| <= |rows|
    ensures forall t :: t in parts ==> Joinable(t)
    ensures forall t :: t in parts <==>
      exists j :: 0 <= j < |rows| && KeyOf(rows[j]) == k && Title(rows[j]) == Text(t) && Joinable(t)
  {
    if |rows| == 0 then []
    else
      var n := |rows| - 1;
      var last := rows[n];
      var mine := if KeyOf(last) == k && Title(last).Text? && Joinable(Title(last).s)
        then [Title(last).s] else [];
      GroupTitles(rows[..n], k) + mine
  }

  /** Titles are collected in row order: the titles of a + b are those of a
      followed by those of b. */
  lemma {:induction false} GroupTitlesAppend(a: seq<NormRow>, b: seq<NormRow>, k: Key)
    ensures GroupTitles(a + b, k) == GroupTitles(a, k) + GroupTitles(b, k)
    decreases |b|
  {
    if |b| == 0 {
      assert a + b == a;
    } else {
      var n := |b| - 1;
      var ab := a + b;
      assert ab[..|ab| - 1] == a + b[..n];
      assert ab[|ab| - 1] == b[n];
      var ga, gb, gl := GroupTitles(a, k), GroupTitles(b[..n], k), GroupTitles([b[n]], k);
      GroupTitlesAppend(a, b[..n], k);
      GroupTitlesSnoc(ab, k);
      GroupTitlesSnoc(b, k);
      assert (ga + gb) + gl == ga + (gb + gl);
    }
  }

  /** The last row adds its own contribution after the titles of the rows before it. */
  lemma GroupTitlesSnoc(rows: seq<NormRow>, k: Key)
    requires |rows| > 0
    ensures GroupTitles(rows, k) == GroupTitles(rows[..|rows| - 1], k) + GroupTitles([rows[|rows| - 1]], k)
  {
    GroupTitlesRow(rows[|rows| - 1], k);
  }

  /** A single row contributes its title iff it is keyed `k` and the title is joinable text. */
  lemma GroupTitlesRow(row: NormRow, k: Key)
    ensures GroupTitles([row], k) == if KeyOf(row) == k && Title(row).Text? && Joinable(Title(row).s)
      then [Title(row).s] else []
  {
    assert [row][..0] == [];
  }

  /** The positions of the rows keyed `k` whose joinable title is t. */
  function TitleMembers(rows: seq<NormRow>, k: Key, t: string): set<nat> {
    set j: nat | j < |rows| && CarriesTitle(rows[j], k, t)
  }

  /** Each title is joined once per row of the key that carries it. */
  lemma {:induction false} GroupTitlesCount(rows: seq<NormRow>, k: Key, t: string)
    ensures multiset(GroupTitles(rows, k))[t] == |TitleMembers(rows, k, t)|
  {
    if |rows| > 0 {
      var n := |rows| - 1;
      GroupTitlesCount(rows[..n], k, t);
      GroupTitlesLast(rows, k, t);
      TitleMembersLast(rows, k, t);
    }
  }

  /** Row `row` is keyed `k` and carries the joinable title t. */
  predicate CarriesTitle(row: NormRow, k: Key, t: string) {
    KeyOf(row) == k && Title(row) == Text(t) && Joinable(t)
  }

  lemma GroupTitlesLast(rows: seq<NormRow>, k: Key, t: string)
    requires |rows| > 0
    ensures multiset(GroupTitles(rows, k))[t]
      == multiset(GroupTitles(rows[..|rows| - 1], k))[t] + (if CarriesTitle(rows[|rows| - 1], k, t) then 1 else 0)
  {
  }

  lemma TitleMembersLast(rows: seq<NormRow>, k: Key, t: string)
    requires |rows| > 0
    ensures |TitleMembers(rows, k, t)|
      == |TitleMembers(rows[..|rows| - 1], k, t)| + (if CarriesTitle(rows[|rows| - 1], k, t) then 1 else 0)
  {
    var n := |rows| - 1;
    var last: set<nat> := if CarriesTitle(rows[n], k, t) then {n} else {};
    assert TitleMembers(rows, k, t) == TitleMembers(rows[..n], k, t) + last;
    assert n !in TitleMembers(rows[..n], k, t);
  }

  const Separator: string := "; "

  /** The parts joined with "; " between consecutive ones. */
  function Join(parts: seq<string>): string {
    if |parts| == 0 then ""
    else if |parts| == 1 then parts[0]
    else parts[0] + Separator + Join(parts[1..])
  }

  /** The inverse of Join: the pieces of s between occurrences of "; ". */
  function Split(s: string): (parts: seq<string>)
    ensures |parts| >= 1
    decreases |s|
  {
    if |s| == 0 then [""]
    else if |s| >= 2 && s[..2] == Separator then [""] + Split(s[2..])
    else
      var rest := Split(s[1..]);
      [[s[0]] + rest[0]] + rest[1..]
  }

  predicate NoSemicolon(t: string) {
    forall i :: 0 <= i < |t| ==> t[i] != ';'
  }

  lemma {:induction false} SplitPrefix(p: string, s: string)
    requires NoSemicolon(p)
    ensures Split(p + s) == [p + Split(s)[0]] + Split(s)[1..]
    decreases |p|
  {
    if |p| == 0 {
      var r := Split(s);
      assert p + s == s;
      assert p + r[0] == r[0];
      assert r == [r[0]] + r[1..];
    } else {
      var t := p + s;
      assert t[0] == p[0];
      assert t[1..] == p[1..] + s;
      SplitPrefix(p[1..], s);
      assert [p[0]] + (p[1..] + Split(s)[0]) == p + Split(s)[0];
    }
  }

  lemma SplitSeparator(s: string)
    ensures Split(Separator + s) == [""] + Split(s)
  {
    var t := Separator + s;
    assert t[..2] == Separator;
    assert t[2..] == s;
  }

  /** Joining loses nothing when no title contains ';'. */
  lemma {:induction false} SplitJoin(parts: seq<string>)
    requires |parts| >= 1
    requires forall i :: 0 <= i < |parts| ==> NoSemicolon(parts[i])
    ensures Split(Join(parts)) == parts
    decreases |parts|
  {
    if |parts| == 1 {
      SplitPrefix(parts[0], "");
      assert parts[0] + "" == parts[0];
    } else {
      var rest := Join(parts[1..]);
      SplitJoin(parts[1..]);
      assert Join(parts) == parts[0] + (Separator + rest);
      SplitPrefix(parts[0], Separator + rest);
      SplitSeparator(rest);
      var tail := Split(Separator + rest);
      assert tail[0] == "" && tail[1..] == parts[1..];
      assert parts[0] + tail[0] == parts[0];
      assert parts == [parts[0]] + parts[1..];
    }
  }

  /** The combined title of row i: the join of its group's titles, or
      missing when its key is incomplete. */
  function TitleOf(rows: seq<NormRow>, i: nat): Cell
    requires i < |rows|
  {
    var k := KeyOf(rows[i]);
    if KeyComplete(k) then Text(Join(GroupTitles(rows, k))) else Null
  }

  /** When no title contains ';', the combined title of a row with a complete
      key splits back into exactly its group's joinable titles; a group with
      none gets the empty title, and an incomplete key gets none at all. */
  lemma TitleOfParts(rows: seq<NormRow>, i: nat)
    requires i < |rows|
    requires forall j :: 0 <= j < |rows| && Title(rows[j]).Text? ==> NoSemicolon(Title(rows[j]).s)
    ensures !KeyComplete(KeyOf(rows[i])) ==> TitleOf(rows, i) == Null
    ensures KeyComplete(KeyOf(rows[i])) && GroupTitles(rows, KeyOf(rows[i])) == [] ==> TitleOf(rows, i) == Text("")
    ensures KeyComplete(KeyOf(rows[i])) && GroupTitles(rows, KeyOf(rows[i])) != [] ==>
      TitleOf(rows, i).Text? && Split(TitleOf(rows, i).s) == GroupTitles(rows, KeyOf(rows[i]))
  {
    var k := KeyOf(rows[i]);
    var parts := GroupTitles(rows, k);
    if KeyComplete(k) && parts != [] {
      forall p | 0 <= p < |parts|
        ensures NoSemicolon(parts[p])
      {
        assert parts[p] in parts;
        var j :| 0 <= j < |rows| && KeyOf(rows[j]) == k && Title(rows[j]) == Text(parts[p]) && Joinable(parts[p]);
      }
      SplitJoin(parts);
    }
  }

  // ----- One record per employee and unit (lines 112-117) -----

  datatype Salary = Salary(
    empname: Cell, empdepttitle: Cell,
    curfte: Option<real>, newfte: Option<real>,
    cursalary: Option<real>, newsalary: Option<real>,
    campus: string, college: Cell, dept: Cell)

  function SalaryKey(s: Salary): Key {
    Key(s.empname, s.campus, s.college, s.dept)
  }

  /** The record row i contributes before duplicates are dropped. */
  function RecordOf(rows: seq<NormRow>, i: nat): (s: Salary)
    requires i < |rows|
    ensures SalaryKey(s) == KeyOf(rows[i])
  {
    Salary(Name(rows[i]), TitleOf(rows, i),
      EmployeeTotal(rows, i, PresentFteCol), EmployeeTotal(rows, i, ProposedFteCol),
      EmployeeTotal(rows, i, PresentSalaryCol), EmployeeTotal(rows, i, ProposedSalaryCol),
      rows[i].campus, rows[i].college, rows[i].dept)
  }

  function Records(rows: seq<NormRow>): (r: seq<Salary>)
    ensures |r| == |rows| && forall i :: 0 <= i < |rows| ==> r[i] == RecordOf(rows, i)
  {
    seq(|rows|, i requires 0 <= i < |rows| => RecordOf(rows, i))
  }

  /** Rows sharing a key build the same record. */
  lemma SameKeySameRecord(rows: seq<NormRow>, i: nat, j: nat)
    requires i < |rows| && j < |rows| && KeyOf(rows[i]) == KeyOf(rows[j])
    ensures RecordOf(rows, i) == RecordOf(rows, j)
  {
    EmployeeTotalShared(rows, i, j, PresentFteCol);
    EmployeeTotalShared(rows, i, j, ProposedFteCol);
    EmployeeTotalShared(rows, i, j, PresentSalaryCol);
    EmployeeTotalShared(rows, i, j, ProposedSalaryCol);
  }

  /** Duplicate removal: the first occurrence of each element, in order. */
  function Dedup<T(==,!new)>(s: seq<T>): (r: seq<T>)
    ensures |r| <= |s|
    ensures forall x :: x in r <==> x in s
    ensures forall i, j :: 0 <= i < j < |r| ==> r[i] != r[j]
  {
    if |s| == 0 then []
    else
      var r := Dedup(s[..|s| - 1]);
      if s[|s| - 1] in r then r else r + [s[|s| - 1]]
  }

  predicate UniqueKeys(s: seq<Salary>) {
    forall i, j :: 0 <= i < j < |s| ==> SalaryKey(s[i]) != SalaryKey(s[j])
  }

  /** The uniqueness assert of line 117 cannot fail. */
  lemma DedupKeysUnique(rows: seq<NormRow>)
    ensures UniqueKeys(Dedup(Records(rows)))
  {
    var recs := Records(rows);
    var u := Dedup(recs);
    forall i, j | 0 <= i < j < |u|
      ensures SalaryKey(u[i]) != SalaryKey(u[j])
    {
      assert u[i] in recs && u[j] in recs;
      var a :| 0 <= a < |recs| && recs[a] == u[i];
      var b :| 0 <= b < |recs| && recs[b] == u[j];
      if SalaryKey(u[i]) == SalaryKey(u[j]) {
        SameKeySameRecord(rows, a, b);
      }
    }
  }

  // ----- Salary per FTE (lines 120-123) -----

  /** salary / fte, missing when either is missing or the FTE is 0. */
  function PerFte(salary: Option<real>, fte: Option<real>): (r: Option<real>)
    ensures r.Some? <==> salary.Some? && fte.Some? && fte.value != 0.0
    ensures r.Some? ==> r.value * fte.value == salary.value
  {
    if salary.None? || fte.None? || fte.value == 0.0 then None
    else Some(salary.value / fte.value)
  }

  datatype Employee = Employee(salary: Salary, cursalaryperfte: Option<real>, newsalaryperfte: Option<real>)

  function WithPerFte(s: Salary): Employee {
    Employee(s, PerFte(s.cursalary, s.curfte), PerFte(s.newsalary, s.newfte))
  }

  predicate NullTitles(rows: seq<NormRow>) {
    exists i :: 0 <= i < |rows| && Title(rows[i]) == Null
  }

  /** A numeric title in a group makes the join raise. */
  predicate NumericGroupTitles(rows: seq<NormRow>) {
    exists i :: 0 <= i < |rows| && KeyComplete(KeyOf(rows[i])) && Title(rows[i]).Num?
  }

  /** The distinct row records with their salary per FTE: keys unique, and
      exactly the records of the rows. */
  function Collapse(rows: seq<NormRow>): (out: seq<Employee>)
    ensures |out| <= |rows|
    ensures forall a, b :: 0 <= a < b < |out| ==> SalaryKey(out[a].salary) != SalaryKey(out[b].salary)
    ensures forall i :: 0 <= i < |rows| ==> WithPerFte(RecordOf(rows, i)) in out
    ensures forall e :: e in out ==> exists i :: 0 <= i < |rows| && e == WithPerFte(RecordOf(rows, i))
  {
    var recs := Records(rows);
    var u := Dedup(recs);
    DedupKeysUnique(rows);
    var out := seq(|u|, k requires 0 <= k < |u| => WithPerFte(u[k]));
    forall i | 0 <= i < |rows|
      ensures WithPerFte(RecordOf(rows, i)) in out
    {
      assert recs[i] in u;
      var k :| 0 <= k < |u| && u[k] == recs[i];
      assert out[k] == WithPerFte(RecordOf(rows, i));
    }
    forall e | e in out
      ensures exists i :: 0 <= i < |rows| && e == WithPerFte(RecordOf(rows, i))
    {
      var k :| 0 <= k < |out| && out[k] == e;
      assert u[k] in recs;
      var i :| 0 <= i < |recs| && recs[i] == u[k];
      assert e == WithPerFte(RecordOf(rows, i));
    }
    out
  }

  /** The `salaries` table (lines 107-123). */
  function Aggregate(rows: seq<NormRow>): (r: Result<seq<Employee>, Error>)
    ensures r == Failure(NullJobTitle) <==> NullTitles(rows)
    ensures r == Failure(NonTextJobTitle) <==> !NullTitles(rows) && NumericGroupTitles(rows)
    ensures r.Success? <==> !NullTitles(rows) && !NumericGroupTitles(rows)
    ensures r.Success? ==> r.value == Collapse(rows)
  {
    if exists i | 0 <= i < |rows| :: Title(rows[i]) == Null then Failure(NullJobTitle)
    else if exists i | 0 <= i < |rows| :: KeyComplete(KeyOf(rows[i])) && Title(rows[i]).Num? then Failure(NonTextJobTitle)
    else Success(Collapse(rows))
  }
}
