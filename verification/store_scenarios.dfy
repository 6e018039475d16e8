/**
 * Sequences of store calls whose combined outcome the record store
 * promises: each opens a store over some table and reports what the calls
 * return.
 */
module StoreScenarios {
  import opened Wrappers
  import opened Employees
  import opened SqliteText
  import opened EmployeeTable
  import opened HRStore

  /** Adding a record and then looking up its id returns that record, unless the add was refused. */
  method AddThenFind(existing: Table, emp: Employee) returns (ok: bool, found: Option<Employee>)
    requires WellFormed(existing)
    ensures ok <==> emp.empId !in existing && emp.salary >= 0.0
    ensures ok ==> found == Some(emp)
    ensures !ok ==> found == if emp.empId in existing then Some(existing[emp.empId]) else None
  {
    var store := new HRManagementSystem(existing);
    var message;
    ok, message := store.AddEmployee(emp);
    found := store.FindEmployeeById(emp.empId);
  }

  /** The second add of the same id fails with the duplicate message and leaves the first record in place. */
  method AddTwice(existing: Table, emp: Employee, again: Employee)
    returns (firstOk: bool, secondOk: bool, secondMessage: string, found: Option<Employee>, count: nat)
    requires WellFormed(existing) && emp.empId !in existing && emp.salary >= 0.0
    requires again.empId == emp.empId
    ensures firstOk && !secondOk && secondMessage == DuplicateMessage
    ensures found == Some(emp)
    ensures count == |existing| + 1
  {
    var store := new HRManagementSystem(existing);
    var message;
    firstOk, message := store.AddEmployee(emp);
    secondOk, secondMessage := store.AddEmployee(again);
    found := store.FindEmployeeById(emp.empId);
    var all := store.GetAllEmployees();
    count := |all|;
  }

  /** A negative salary is refused for any id and the stored record stays as it was. */
  method UpdateNegativeSalary(existing: Table, empId: string, salary: real)
    returns (ok: bool, found: Option<Employee>)
    requires WellFormed(existing) && salary < 0.0
    ensures !ok
    ensures found == if empId in existing then Some(existing[empId]) else None
  {
    var store := new HRManagementSystem(existing);
    ok := store.UpdateEmployee(empId, None, Some(salary), None, None);
    found := store.FindEmployeeById(empId);
  }

  /** Deleting twice: the first call reports whether the id was there, the second always fails. */
  method DeleteTwice(existing: Table, empId: string)
    returns (first: bool, second: bool, found: Option<Employee>, count: nat)
    requires WellFormed(existing)
    ensures first <==> empId in existing
    ensures !second && found == None
    ensures count == if empId in existing then |existing| - 1 else |existing|
  {
    var store := new HRManagementSystem(existing);
    first := store.DeleteEmployee(empId);
    second := store.DeleteEmployee(empId);
    found := store.FindEmployeeById(empId);
    var all := store.GetAllEmployees();
    count := |all|;
  }

  /** A new store over an empty table reports a zero total and no departments. */
  method EmptyReport() returns (total: real, averages: seq<(string, real)>)
    ensures total == 0.0 && averages == []
  {
    var store := new HRManagementSystem(map[]);
    total, averages := store.SalaryReport();
  }

  const Alice := Employee("E1", "Alice", "Eng", "Dev", 70000.0)
  const Bob := Employee("E2", "Bob", "Eng", "Dev", 90000.0)
  const Carol := Employee("E3", "Carol", "Sales", "Rep", 50000.0)

  /** The table after adding Alice, Bob and Carol to an empty store. */
  function ThreeRecords(): (t: Table)
    ensures WellFormed(t)
  {
    map["E1" := Alice, "E2" := Bob, "E3" := Carol]
  }

  lemma ThreeRecordTotal()
    ensures TotalSalary(ThreeRecords()) == 210000.0
  {
    var t1: Table := map["E1" := Alice];
    var t2 := t1["E2" := Bob];
    TotalSalaryInsert(map[], "E1", Alice);
    TotalSalaryInsert(t1, "E2", Bob);
    TotalSalaryInsert(t2, "E3", Carol);
  }

  lemma EngGroup()
    ensures InDepartment(ThreeRecords(), Alice.department) == map["E1" := Alice, "E2" := Bob]
  {
    var t0: Table := map[];
    var t1 := t0["E1" := Alice];
    var t2 := t1["E2" := Bob];
    assert ThreeRecords() == t2["E3" := Carol];
    var d := Alice.department;
    InDepartmentInsert(t0, "E1", Alice, d);
    InDepartmentInsert(t1, "E2", Bob, d);
    InDepartmentInsert(t2, "E3", Carol, d);
    assert InDepartment(t0, d) == t0;
  }

  lemma EngAverage()
    ensures AverageSalary(ThreeRecords(), "Eng") == 80000.0
  {
    var t0: Table := map[];
    var t1 := t0["E1" := Alice];
    EngGroup();
    TotalSalaryInsert(t0, "E1", Alice);
    TotalSalaryInsert(t1, "E2", Bob);
    assert |t1["E2" := Bob]| == 2;
  }

  lemma SalesGroup()
    ensures InDepartment(ThreeRecords(), Carol.department) == map["E3" := Carol]
  {
    var t0: Table := map[];
    var t1 := t0["E1" := Alice];
    var t2 := t1["E2" := Bob];
    assert ThreeRecords() == t2["E3" := Carol];
    var d := Carol.department;
    InDepartmentInsert(t0, "E1", Alice, d);
    InDepartmentInsert(t1, "E2", Bob, d);
    InDepartmentInsert(t2, "E3", Carol, d);
    assert InDepartment(t0, d) == t0;
  }

  lemma SalesAverage()
    ensures AverageSalary(ThreeRecords(), "Sales") == 50000.0
  {
    var t0: Table := map[];
    SalesGroup();
    TotalSalaryInsert(t0, "E3", Carol);
    assert |t0["E3" := Carol]| == 1;
  }

  lemma ThreeRecordDepartments()
    ensures Departments(ThreeRecords()) == {"Eng", "Sales"}
  {
    var t := ThreeRecords();
    assert t["E1"].department == "Eng" && t["E3"].department == "Sales";
  }

  /** A new store after adding Alice, Bob and Carol, in that order. */
  method OpenWithThreeRecords() returns (store: HRManagementSystem)
    ensures fresh(store) && store.Valid() && store.table == ThreeRecords()
  {
    store := new HRManagementSystem(map[]);
    var ok, message := store.AddEmployee(Alice);
    assert store.table == map["E1" := Alice];
    ok, message := store.AddEmployee(Bob);
    assert store.table == map["E1" := Alice, "E2" := Bob];
    ok, message := store.AddEmployee(Carol);
  }

  /** Two engineers and one sales representative: total 210000, Eng averages 80000, Sales 50000. */
  method ThreeRecordReport() returns (total: real, averages: seq<(string, real)>)
    ensures total == 210000.0
    ensures |averages| == 2
    ensures ("Eng", 80000.0) in averages && ("Sales", 50000.0) in averages
  {
    var store := OpenWithThreeRecords();
    total, averages := store.SalaryReport();
    ThreeRecordTotal();
    ThreeRecordGroups(averages);
  }

  /** A correct, duplicate-free department report over the three records. */
  lemma ThreeRecordGroups(averages: seq<(string, real)>)
    requires GroupNames(averages) == Departments(ThreeRecords())
    requires forall i, j :: 0 <= i < j < |averages| ==> averages[i].0 != averages[j].0
    requires forall i :: 0 <= i < |averages| ==> averages[i].1 == AverageSalary(ThreeRecords(), averages[i].0)
    ensures |averages| == 2
    ensures ("Eng", 80000.0) in averages && ("Sales", 50000.0) in averages
  {
    EngAverage();
    SalesAverage();
    ThreeRecordDepartments();
    GroupCount(averages);
    assert "Eng" in GroupNames(averages) && "Sales" in GroupNames(averages);
  }

  /** The rows `%a%` and `%A%` keep, once the pattern is known to match Alice and Carol and not Bob. */
  lemma MatchingRows(p: string)
    requires Like(p, Alice.name) && !Like(p, Bob.name) && Like(p, Carol.name)
    ensures NameLike(ThreeRecords(), p) == map["E1" := Alice, "E3" := Carol]
  {
  }

  /** LIKE folds ASCII case: `%a%` and `%A%` both match Alice and Carol, and not Bob. */
  lemma PatternMatches(p: string)
    requires p == "%a%" || p == "%A%"
    ensures Like(p, Alice.name) && !Like(p, Bob.name) && Like(p, Carol.name)
  {
    if p == "%a%" { LowerCaseA(); } else { UpperCaseA(); }
  }

  lemma LowerCaseA()
    ensures Like("%a%", "Alice") && !Like("%a%", "Bob") && Like("%a%", "Carol")
  {
  }

  lemma UpperCaseA()
    ensures Like("%A%", "Alice") && !Like("%A%", "Bob") && Like("%A%", "Carol")
  {
  }

  lemma SearchMatches(fragment: string)
    requires fragment == "a" || fragment == "A"
    ensures NameLike(ThreeRecords(), "%" + fragment + "%") == map["E1" := Alice, "E3" := Carol]
  {
    var p := "%" + fragment + "%";
    assert p == "%a%" || p == "%A%";
    PatternMatches(p);
    MatchingRows(p);
  }

  /** Alice sorts before Carol, so a listing of the two is [Alice, Carol]. */
  lemma AliceThenCarol(rows: seq<Employee>)
    requires OrderedListing(rows, map["E1" := Alice, "E3" := Carol])
    ensures rows == [Alice, Carol]
  {
    var t: Table := map["E1" := Alice, "E3" := Carol];
    ListingLength(rows, t);
    assert t["E1"] in rows && t["E3"] in rows;
    assert !BinaryLe(Carol.name, Alice.name);
  }

  /** Searching the three records for "a" or "A" lists Alice then Carol. */
  method CaseInsensitiveSearch(fragment: string) returns (employees: seq<Employee>)
    requires fragment == "a" || fragment == "A"
    ensures employees == [Alice, Carol]
  {
    var store := OpenWithThreeRecords();
    employees := store.FindEmployeesByName(fragment);
    SearchMatches(fragment);
    AliceThenCarol(employees);
  }
}
