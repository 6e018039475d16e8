/** The employee record of hr_app/model.py: a plain dataclass with five fields and no validation. */
module Employees {

  /** One row of the `employees` table; `salary` is exact (a `real`), not a binary float. */
  datatype Employee = Employee(empId: string, name: string, department: string, role: string, salary: real)
}
