/**
 * The record store of hr_app/db.py: one `HRManagementSystem` object owning
 * the `employees` table.  Each method issues the statements the Python code
 * issues, and the table is the state those statements change.
 */
module HRStore {
  import opened Wrappers
  import opened Employees
  import opened SqliteText
  import opened EmployeeTable

  const AddedMessage := "Employee added successfully."
  const DuplicateMessage := "Employee ID already exists."

  /** Converts fetched rows to records one by one; a record construction cannot fail, so every row is kept. */
  method RowsToEmployees(rows: seq<Employee>) returns (employees: seq<Employee>)
    ensures employees == rows
  {
    employees := [];
    for i := 0 to |rows|
      invariant employees == rows[..i]
    {
      var row := rows[i];
      employees := employees + [Employee(row.empId, row.name, row.department, row.role, row.salary)];
    }
  }

  /** `SELECT SUM(salary) FROM employees`: NULL (None) when there are no rows. */
  method SelectSum(t: Table) returns (sum: Option<real>)
    ensures sum == if t == map[] then None else Some(TotalSalary(t))
  {
    var acc := 0.0;
    var rest := t.Keys;
    while rest != {}
      invariant rest <= t.Keys
      invariant acc == TotalSalary(Without(t, rest))
      decreases rest
    {
      var id :| id in rest;
      TotalSalaryInsert(Without(t, rest), id, t[id]);
      assert Without(t, rest)[id := t[id]] == Without(t, rest - {id});
      acc := acc + t[id].salary;
      rest := rest - {id};
    }
    assert Without(t, {}) == t;
    sum := if t == map[] then None else Some(acc);
  }

  /** The departments named in a list of (department, value) pairs. */
  function GroupNames(groups: seq<(string, real)>): set<string> {
    set i | 0 <= i < |groups| :: groups[i].0
  }

  lemma GroupNamesSnoc(groups: seq<(string, real)>, p: (string, real))
    ensures GroupNames(groups + [p]) == GroupNames(groups) + {p.0}
  {
    var g := groups + [p];
    forall x | x in GroupNames(g) ensures x in GroupNames(groups) + {p.0} {
      var i :| 0 <= i < |g| && g[i].0 == x;
      if i < |groups| { assert groups[i] == g[i]; }
    }
    forall x | x in GroupNames(groups) ensures x in GroupNames(g) {
      var i :| 0 <= i < |groups| && groups[i].0 == x;
      assert g[i] == groups[i];
    }
    assert g[|groups|] == p;
  }

  lemma NoGroupNames(groups: seq<(string, real)>)
    ensures groups == [] <==> GroupNames(groups) == {}
  {
    if groups != [] { assert groups[0].0 in GroupNames(groups); }
  }

  /**
   * A report names at most as many departments as it has pairs, and exactly
   * as many when no department is named twice.
   */
  lemma {:induction false} GroupCount(groups: seq<(string, real)>)
    ensures |GroupNames(groups)| <= |groups|
    ensures DistinctNames(groups) ==> |GroupNames(groups)| == |groups|
  {
    if groups != [] {
      var front, last := groups[..|groups| - 1], groups[|groups| - 1];
      assert groups == front + [last];
      GroupCount(front);
      GroupNamesSnoc(front, last);
      if DistinctNames(groups) {
        assert DistinctNames(front);
        assert last.0 !in GroupNames(front);
      }
    }
  }

  /** `AVG(salary)` over the group of one department present in the table. */
  method SelectAverage(t: Table, d: string) returns (average: real)
    requires d in Departments(t)
    ensures average == AverageSalary(t, d)
  {
    var g := InDepartment(t, d);
    var id :| id in t && t[id].department == d;
    assert id in g;
    var sum := SelectSum(g);
    average := sum.value / (|g| as real);
  }

  /** No department is named twice. */
  ghost predicate DistinctNames(groups: seq<(string, real)>) {
    forall i, j :: 0 <= i < j < |groups| ==> groups[i].0 != groups[j].0
  }

  /** Each pair holds its department's average salary in `t`. */
  ghost predicate AveragesOf(t: Table, groups: seq<(string, real)>) {
    forall i :: 0 <= i < |groups| ==> groups[i].1 == AverageSalary(t, groups[i].0)
  }

  /** Appending the pair of a department not yet listed keeps the list a correct, duplicate-free report. */
  lemma AppendGroup(t: Table, groups: seq<(string, real)>, d: string, average: real)
    requires DistinctNames(groups) && AveragesOf(t, groups) && d !in GroupNames(groups)
    requires average == AverageSalary(t, d)
    ensures DistinctNames(groups + [(d, average)]) && AveragesOf(t, groups + [(d, average)])
    ensures GroupNames(groups + [(d, average)]) == GroupNames(groups) + {d}
  {
    GroupNamesSnoc(groups, (d, average));
  }

  /**
   * `SELECT department, AVG(salary) FROM employees GROUP BY department`:
   * one pair per distinct department, in no promised order.
   */
  method SelectAverageByDepartment(t: Table) returns (groups: seq<(string, real)>)
    ensures GroupNames(groups) == Departments(t)
    ensures DistinctNames(groups) && AveragesOf(t, groups)
  {
    groups := [];
    var pending := Departments(t);
    while pending != {}
      invariant pending <= Departments(t)
      invariant GroupNames(groups) == Departments(t) - pending
      invariant DistinctNames(groups) && AveragesOf(t, groups)
      decreases pending
    {
      var d :| d in pending;
      var average := SelectAverage(t, d);
      AppendGroup(t, groups, d, average);
      groups := groups + [(d, average)];
      pending := pending - {d};
    }
  }

  /**
   * The SET list of the partial update: one assignment per supplied field, in
   * the order name, department, role, salary.  Applied to a row (`before`),
   * it replaces exactly the supplied columns.
   */
  method SetList(ghost before: Employee, role: Option<string>, salary: Option<real>,
                 department: Option<string>, name: Option<string>) returns (fields: seq<Assignment>)
    ensures fields == [] <==> name.None? && department.None? && role.None? && salary.None?
    ensures AssignAll(before, fields) == Updated(before, role, salary, department, name)
  {
    fields := [];
    if name.Some? {
      fields := Append(before, fields, SetName(name.value));
    }
    assert AssignAll(before, fields) == Updated(before, None, None, None, name);
    if department.Some? {
      fields := Append(before, fields, SetDepartment(department.value));
    }
    assert AssignAll(before, fields) == Updated(before, None, None, department, name);
    if role.Some? {
      fields := Append(before, fields, SetRole(role.value));
    }
    assert AssignAll(before, fields) == Updated(before, role, None, department, name);
    if salary.Some? {
      fields := Append(before, fields, SetSalary(salary.value));
    }
  }

  /** `fields.append(...)`: one more assignment at the end of the SET list. */
  method Append(ghost before: Employee, fields: seq<Assignment>, a: Assignment) returns (r: seq<Assignment>)
    ensures r != []
    ensures AssignAll(before, r) == Assign(AssignAll(before, fields), a)
  {
    AssignAllSnoc(before, fields, a);
    r := fields + [a];
  }

  class HRManagementSystem {
    /** The rows of the `employees` table. */
    var table: Table

    ghost predicate Valid()
      reads this
    {
      WellFormed(table)
    }

    /** Opening a store keeps whatever the table already holds. */
    constructor (existing: Table)
      requires WellFormed(existing)
      ensures Valid() && table == existing
    {
      table := existing;
    }

    /**
     * INSERT of one record.  A repeated `emp_id` (PRIMARY KEY) and a negative
     * salary (CHECK) both raise an integrity error, reported with one message.
     */
    method AddEmployee(emp: Employee) returns (ok: bool, message: string)
      requires Valid()
      modifies this
      ensures Valid()
      ensures ok <==> emp.empId !in old(table) && emp.salary >= 0.0
      ensures message == if ok then AddedMessage else DuplicateMessage
      ensures ok ==> table == old(table)[emp.empId := emp]
      ensures !ok ==> table == old(table)
    {
      if emp.empId in table || emp.salary < 0.0 {
        return false, DuplicateMessage;
      }
      table := table[emp.empId := emp];
      return true, AddedMessage;
    }

    /** Every record once, ordered by name; the empty list for an empty table. */
    method GetAllEmployees() returns (employees: seq<Employee>)
      requires Valid()
      ensures OrderedListing(employees, table)
      ensures |employees| == |table|
      ensures table == map[] ==> employees == []
    {
      var rows := SelectOrderedByName(table);
      employees := RowsToEmployees(rows);
      ListingLength(employees, table);
    }

    /** `SELECT ... WHERE emp_id = ?`: the record stored under exactly this id, if any. */
    function FindEmployeeById(empId: string): (found: Option<Employee>)
      reads this
      requires Valid()
      ensures found.Some? <==> empId in table
      ensures found.Some? ==> found.value.empId == empId && found.value == table[empId]
    {
      if empId in table then Some(table[empId]) else None
    }

    /** `WHERE name LIKE '%' || name || '%' ORDER BY name`: the matching records, ordered by name. */
    method FindEmployeesByName(name: string) returns (employees: seq<Employee>)
      requires Valid()
      ensures OrderedListing(employees, NameLike(table, "%" + name + "%"))
      ensures NoWildcards(name) ==>
        forall e :: e in employees <==> e in table.Values && ContainsFolded(e.name, name)
      ensures name == "" ==> OrderedListing(employees, table)
    {
      var pattern := "%" + name + "%";
      var matching := NameLike(table, pattern);
      var rows := SelectOrderedByName(matching);
      employees := RowsToEmployees(rows);
      if NoWildcards(name) {
        SearchKeepsContaining(table, name);
        forall e ensures e in employees <==> e in table.Values && ContainsFolded(e.name, name) {
          if e in table.Values {
            var id :| id in table && table[id] == e;
            if id in matching {
              assert matching[id] in employees;
            }
          }
        }
      }
      if name == "" {
        EmptySearchKeepsAll(table);
      }
    }

    /**
     * Partial update: a negative salary is refused before anything is built,
     * a call with no field is refused, otherwise one UPDATE sets exactly the
     * supplied columns and succeeds iff a row has that id.
     */
    method UpdateEmployee(empId: string, role: Option<string>, salary: Option<real>,
                          department: Option<string>, name: Option<string>) returns (ok: bool)
      requires Valid()
      modifies this
      ensures Valid()
      ensures ok <==> && (salary.None? || salary.value >= 0.0)
                      && (name.Some? || department.Some? || role.Some? || salary.Some?)
                      && empId in old(table)
      ensures !ok ==> table == old(table)
      ensures ok ==> table.Keys == old(table).Keys
      ensures ok ==> forall id :: id in table && id != empId ==> table[id] == old(table)[id]
      ensures ok ==> table[empId].empId == empId
      ensures ok ==> table[empId].name == if name.Some? then name.value else old(table)[empId].name
      ensures ok ==> table[empId].department == if department.Some? then department.value else old(table)[empId].department
      ensures ok ==> table[empId].role == if role.Some? then role.value else old(table)[empId].role
      ensures ok ==> table[empId].salary == if salary.Some? then salary.value else old(table)[empId].salary
    {
      if salary.Some? && salary.value < 0.0 {
        return false;
      }
      ghost var before := if empId in table then table[empId] else Employee(empId, "", "", "", 0.0);
      var fields := SetList(before, role, salary, department, name);
      if fields == [] {
        return false;
      }
      if empId in table {
        table := table[empId := AssignAll(table[empId], fields)];
        ok := true;
      } else {
        ok := false;
      }
    }

    /** DELETE by id: reports whether a row was removed; afterwards no row has that id. */
    method DeleteEmployee(empId: string) returns (deleted: bool)
      requires Valid()
      modifies this
      ensures Valid()
      ensures deleted <==> empId in old(table)
      ensures table == old(table) - {empId}
    {
      deleted := empId in table;
      table := table - {empId};
    }

    /** Total payroll (0 for an empty table) and the average salary of each department present. */
    method SalaryReport() returns (total: real, averages: seq<(string, real)>)
      requires Valid()
      ensures total == TotalSalary(table) && total >= 0.0
      ensures table == map[] ==> total == 0.0 && averages == []
      ensures GroupNames(averages) == Departments(table)
      ensures |averages| == |Departments(table)|
      ensures forall i, j :: 0 <= i < j < |averages| ==> averages[i].0 != averages[j].0
      ensures forall i :: 0 <= i < |averages| ==> averages[i].1 == AverageSalary(table, averages[i].0)
    {
      var sum := SelectSum(table);
      total := if sum.Some? then sum.value else 0.0;
      averages := SelectAverageByDepartment(table);
      TotalSalaryNonNegative(table);
      NoGroupNames(averages);
      GroupCount(averages);
    }
  }
}
