/**
 * What the `employees` table holds and what its SQL statements compute,
 * stated over a map from `emp_id` to the row.  hr_app/db.py talks to the
 * table only through these statements; the class in HRStore is built on
 * them.
 */
module EmployeeTable {
  import opened Wrappers
  import opened Employees
  import opened SqliteText

  /** The table's rows, keyed by the primary key `emp_id`. */
  type Table = map<string, Employee>

  /** Each row is stored under its own `emp_id`. */
  ghost predicate KeyedById(t: Table) {
    forall id :: id in t ==> t[id].empId == id
  }

  /** The intended schema: `emp_id` is the primary key and `CHECK (salary >= 0)` holds. */
  ghost predicate WellFormed(t: Table) {
    KeyedById(t) && forall id :: id in t ==> t[id].salary >= 0.0
  }

  // ---------------------------------------------------------------------
  // Result lists of `SELECT ... ORDER BY name`
  // ---------------------------------------------------------------------

  ghost predicate SortedByName(rows: seq<Employee>) {
    forall i, j :: 0 <= i < j < |rows| ==> BinaryLe(rows[i].name, rows[j].name)
  }

  /** Every row of `rows` is a stored record. */
  ghost predicate RowsAreStored(rows: seq<Employee>, t: Table) {
    forall i :: 0 <= i < |rows| ==> rows[i].empId in t && t[rows[i].empId] == rows[i]
  }

  /** Every stored record is in `rows`. */
  ghost predicate RecordsAreListed(rows: seq<Employee>, t: Table) {
    forall id :: id in t ==> t[id] in rows
  }

  /** No id is listed twice. */
  ghost predicate DistinctIds(rows: seq<Employee>) {
    forall i, j :: 0 <= i < j < |rows| ==> rows[i].empId != rows[j].empId
  }

  /** `rows` lists the records of `t`, each exactly once. */
  ghost predicate ListsEachOnce(rows: seq<Employee>, t: Table) {
    RowsAreStored(rows, t) && RecordsAreListed(rows, t) && DistinctIds(rows)
  }

  /** `rows` is what `SELECT ... ORDER BY name` returns for the rows of `t`. */
  ghost predicate OrderedListing(rows: seq<Employee>, t: Table) {
    ListsEachOnce(rows, t) && SortedByName(rows)
  }

  /** A listing has exactly one row per stored record. */
  lemma {:induction false} ListingLength(rows: seq<Employee>, t: Table)
    requires KeyedById(t) && ListsEachOnce(rows, t)
    ensures |rows| == |t|
  {
    if rows != [] {
      var id := rows[|rows| - 1].empId;
      DropLast(rows, t);
      ListingLength(rows[..|rows| - 1], t - {id});
      assert (t - {id}).Keys == t.Keys - {id};
    }
  }

  /** Without its last row, a listing lists the table without that row's record. */
  lemma DropLast(rows: seq<Employee>, t: Table)
    requires KeyedById(t) && ListsEachOnce(rows, t) && rows != []
    ensures rows[|rows| - 1].empId in t
    ensures KeyedById(t - {rows[|rows| - 1].empId})
    ensures ListsEachOnce(rows[..|rows| - 1], t - {rows[|rows| - 1].empId})
  {
    var front, id := rows[..|rows| - 1], rows[|rows| - 1].empId;
    assert RowsAreStored(front, t - {id});
    FrontListsTheRest(rows, t);
  }

  lemma FrontListsTheRest(rows: seq<Employee>, t: Table)
    requires KeyedById(t) && ListsEachOnce(rows, t) && rows != []
    ensures RecordsAreListed(rows[..|rows| - 1], t - {rows[|rows| - 1].empId})
  {
    var front, t' := rows[..|rows| - 1], t - {rows[|rows| - 1].empId};
    forall id | id in t' ensures t'[id] in front {
      var i :| 0 <= i < |rows| && rows[i] == t[id];
      assert t[id].empId == id;
      assert i != |rows| - 1;
      assert front[i] == t[id];
    }
  }

  /** The table with the rows whose ids are in `ids` taken out. */
  function Without(t: Table, ids: set<string>): Table {
    map id | id in t && id !in ids :: t[id]
  }

  /** Where a row with this name goes in a name-sorted list: after every name that sorts no later. */
  function InsertionPoint(rows: seq<Employee>, name: string): (k: nat)
    ensures k <= |rows|
    ensures forall i :: 0 <= i < k ==> BinaryLe(rows[i].name, name)
    ensures k < |rows| ==> !BinaryLe(rows[k].name, name)
  {
    if rows == [] || !BinaryLe(rows[0].name, name) then 0
    else 1 + InsertionPoint(rows[1..], name)
  }

  lemma InsertKeepsSorted(rows: seq<Employee>, e: Employee)
    requires SortedByName(rows)
    ensures var k := InsertionPoint(rows, e.name);
      SortedByName(rows[..k] + [e] + rows[k..])
  {
    var k := InsertionPoint(rows, e.name);
    var r := rows[..k] + [e] + rows[k..];
    assert forall i :: 0 <= i < k ==> r[i] == rows[i];
    assert r[k] == e;
    assert forall i :: k < i < |r| ==> r[i] == rows[i - 1];
    forall i, j | 0 <= i < j < |r| ensures BinaryLe(r[i].name, r[j].name) {
      if i == k {
        BinaryLeTotal(rows[k].name, e.name);
        if j - 1 > k { BinaryLeTransitive(e.name, rows[k].name, rows[j - 1].name); }
      }
    }
  }

  lemma InsertKeepsListing(rows: seq<Employee>, t: Table, e: Employee, k: nat)
    requires ListsEachOnce(rows, t) && e.empId !in t && k <= |rows|
    ensures ListsEachOnce(rows[..k] + [e] + rows[k..], t[e.empId := e])
  {
    var r := rows[..k] + [e] + rows[k..];
    InsertedRows(rows, t, e, k, r);
  }

  /** `r` is `rows` with `e` placed at index `k`, described element by element. */
  lemma InsertedRows(rows: seq<Employee>, t: Table, e: Employee, k: nat, r: seq<Employee>)
    requires ListsEachOnce(rows, t) && e.empId !in t && k <= |rows|
    requires |r| == |rows| + 1 && r[k] == e
    requires forall i :: 0 <= i < k ==> r[i] == rows[i]
    requires forall i :: k < i < |r| ==> r[i] == rows[i - 1]
    ensures ListsEachOnce(r, t[e.empId := e])
  {
    InsertedRowsStored(rows, t, e, k, r);
    InsertedRecordsListed(rows, t, e, k, r);
    InsertedIdsDistinct(rows, t, e, k, r);
  }

  lemma InsertedRowsStored(rows: seq<Employee>, t: Table, e: Employee, k: nat, r: seq<Employee>)
    requires RowsAreStored(rows, t) && e.empId !in t && k <= |rows|
    requires |r| == |rows| + 1 && r[k] == e
    requires forall i :: 0 <= i < k ==> r[i] == rows[i]
    requires forall i :: k < i < |r| ==> r[i] == rows[i - 1]
    ensures RowsAreStored(r, t[e.empId := e])
  {
  }

  lemma InsertedRecordsListed(rows: seq<Employee>, t: Table, e: Employee, k: nat, r: seq<Employee>)
    requires RecordsAreListed(rows, t) && k <= |rows|
    requires |r| == |rows| + 1 && r[k] == e
    requires forall i :: 0 <= i < k ==> r[i] == rows[i]
    requires forall i :: k < i < |r| ==> r[i] == rows[i - 1]
    ensures RecordsAreListed(r, t[e.empId := e])
  {
    var t' := t[e.empId := e];
    forall id | id in t' ensures t'[id] in r {
      if id != e.empId {
        var i :| 0 <= i < |rows| && rows[i] == t[id];
        if i < k { assert r[i] == t[id]; } else { assert r[i + 1] == t[id]; }
      }
    }
  }

  lemma InsertedIdsDistinct(rows: seq<Employee>, t: Table, e: Employee, k: nat, r: seq<Employee>)
    requires RowsAreStored(rows, t) && DistinctIds(rows) && e.empId !in t && k <= |rows|
    requires |r| == |rows| + 1 && r[k] == e
    requires forall i :: 0 <= i < k ==> r[i] == rows[i]
    requires forall i :: k < i < |r| ==> r[i] == rows[i - 1]
    ensures DistinctIds(r)
  {
  }

  /** `SELECT ... FROM employees ORDER BY name`: the engine sorts the rows by name (ties in any order). */
  method SelectOrderedByName(t: Table) returns (rows: seq<Employee>)
    requires KeyedById(t)
    ensures OrderedListing(rows, t)
  {
    rows := [];
    var rest := t.Keys;
    while rest != {}
      invariant rest <= t.Keys
      invariant OrderedListing(rows, Without(t, rest))
      decreases rest
    {
      var id :| id in rest;
      var e := t[id];
      var k := InsertionPoint(rows, e.name);
      InsertKeepsSorted(rows, e);
      InsertKeepsListing(rows, Without(t, rest), e, k);
      assert Without(t, rest)[id := e] == Without(t, rest - {id});
      rows := rows[..k] + [e] + rows[k..];
      rest := rest - {id};
    }
    assert Without(t, {}) == t;
  }

  /** The rows a `WHERE name LIKE pattern` clause keeps. */
  function NameLike(t: Table, pattern: string): Table {
    map id | id in t && Like(pattern, t[id].name) :: t[id]
  }

  /**
   * The search pattern `%f%` for a fragment without wildcards keeps exactly
   * the rows whose name contains `f` up to ASCII case.
   */
  lemma SearchKeepsContaining(t: Table, f: string)
    requires NoWildcards(f)
    ensures forall id :: id in NameLike(t, "%" + f + "%") <==> id in t && ContainsFolded(t[id].name, f)
  {
    forall id | id in t ensures Like("%" + f + "%", t[id].name) <==> ContainsFolded(t[id].name, f) {
      LikeContains(f, t[id].name);
    }
  }

  /** The empty fragment's pattern `%%` keeps every row. */
  lemma EmptySearchKeepsAll(t: Table)
    ensures NameLike(t, "%" + "" + "%") == t
  {
    forall id | id in t ensures Like("%" + "" + "%", t[id].name) {
      EmptyFragmentMatchesAll(t[id].name);
    }
  }

  // ---------------------------------------------------------------------
  // Aggregates: SUM(salary) and AVG(salary) ... GROUP BY department
  // ---------------------------------------------------------------------

  ghost function PickId(t: Table): (id: string)
    requires t != map[]
    ensures id in t
  {
    var id :| id in t; id
  }

  /** `SUM(salary)` over the rows of `t`, and 0 for no rows. */
  ghost function TotalSalary(t: Table): real
    decreases |t|
  {
    if t == map[] then 0.0
    else
      var id := PickId(t);
      assert |t - {id}| < |t| by { assert (t - {id}).Keys == t.Keys - {id}; }
      t[id].salary + TotalSalary(t - {id})
  }

  /** The total does not depend on which row is taken first. */
  lemma {:induction false} TotalSalaryRemove(t: Table, id: string)
    requires id in t
    ensures TotalSalary(t) == t[id].salary + TotalSalary(t - {id})
    decreases |t|
  {
    var j := PickId(t);
    if j != id {
      assert (t - {j}).Keys == t.Keys - {j} && (t - {id}).Keys == t.Keys - {id};
      TotalSalaryRemove(t - {j}, id);
      TotalSalaryRemove(t - {id}, j);
      assert t - {j} - {id} == t - {id} - {j};
    }
  }

  /** Adding a row adds its salary to the total. */
  lemma TotalSalaryInsert(t: Table, id: string, e: Employee)
    requires id !in t
    ensures TotalSalary(t[id := e]) == TotalSalary(t) + e.salary
  {
    TotalSalaryRemove(t[id := e], id);
    assert t[id := e] - {id} == t;
  }

  /** Under the CHECK constraint the total is never negative. */
  lemma {:induction false} TotalSalaryNonNegative(t: Table)
    requires WellFormed(t)
    ensures TotalSalary(t) >= 0.0
    decreases |t|
  {
    if t != map[] {
      var id := PickId(t);
      assert (t - {id}).Keys == t.Keys - {id};
      TotalSalaryNonNegative(t - {id});
    }
  }

  /** The rows of one department: the group `GROUP BY department` forms for it. */
  function InDepartment(t: Table, d: string): Table {
    map id | id in t && t[id].department == d :: t[id]
  }

  /** The distinct departments present: one group each. */
  function Departments(t: Table): set<string> {
    set id | id in t :: t[id].department
  }

  /** The groups of the departments present cover the table: every row is in its own department's group and in no other. */
  lemma GroupsCoverTable(t: Table)
    ensures forall id :: id in t ==> t[id].department in Departments(t) && id in InDepartment(t, t[id].department)
    ensures forall id, d :: id in InDepartment(t, d) ==> id in t && d == t[id].department && d in Departments(t)
  {
  }

  /** `AVG(salary)` over one department's rows. */
  ghost function AverageSalary(t: Table, d: string): real {
    var g := InDepartment(t, d);
    if |g| == 0 then 0.0 else TotalSalary(g) / (|g| as real)
  }

  /** Adding a row changes only its own department's group. */
  lemma InDepartmentInsert(t: Table, id: string, e: Employee, d: string)
    requires id !in t
    ensures InDepartment(t[id := e], d) == if e.department == d then InDepartment(t, d)[id := e] else InDepartment(t, d)
  {
  }

  // ---------------------------------------------------------------------
  // UPDATE ... SET <assignments> WHERE emp_id = ?
  // ---------------------------------------------------------------------

  /** One `column = ?` item of an UPDATE statement's SET list. */
  datatype Assignment =
    | SetName(newName: string)
    | SetDepartment(newDepartment: string)
    | SetRole(newRole: string)
    | SetSalary(newSalary: real)

  function Assign(e: Employee, a: Assignment): (r: Employee) {
    match a
    case SetName(v) => e.(name := v)
    case SetDepartment(v) => e.(department := v)
    case SetRole(v) => e.(role := v)
    case SetSalary(v) => e.(salary := v)
  }

  /** The SET list applied to one row: the primary key is never assigned. */
  function AssignAll(e: Employee, fields: seq<Assignment>): (r: Employee)
    ensures r.empId == e.empId
    ensures e.salary >= 0.0 && (forall a :: a in fields && a.SetSalary? ==> a.newSalary >= 0.0) ==> r.salary >= 0.0
  {
    if fields == [] then e
    else
      assert forall a :: a in fields[..|fields| - 1] ==> a in fields;
      Assign(AssignAll(e, fields[..|fields| - 1]), fields[|fields| - 1])
  }

  /** Reference definition: the row with each supplied column replaced and the others kept. */
  function Updated(e: Employee, role: Option<string>, salary: Option<real>,
                   department: Option<string>, name: Option<string>): Employee
  {
    Employee(e.empId,
             if name.Some? then name.value else e.name,
             if department.Some? then department.value else e.department,
             if role.Some? then role.value else e.role,
             if salary.Some? then salary.value else e.salary)
  }

  lemma AssignAllSnoc(e: Employee, fields: seq<Assignment>, a: Assignment)
    ensures AssignAll(e, fields + [a]) == Assign(AssignAll(e, fields), a)
  {
    assert (fields + [a])[..|fields|] == fields;
  }
}
