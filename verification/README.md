# HR-CLI record store and salary cleaner, in Dafny

This project models the two parts of HR-CLI that have precise behaviour:

- **The employee record store.** This is `HRManagementSystem` in `hr_app/db.py`. It owns one SQLite table, `employees`, keyed by `emp_id`. It can add a record, list all records by name, look one up by id, search by a name fragment, update supplied fields, delete by id, and report total and per-department average salary.
- **The salary-string cleaner.** This is `sanitize_salary_input` in `hr_app/utils.py`. It deletes `,` `_` `₹` `$` `€` `£`, strips surrounding whitespace, and parses what is left with `float()`. If that fails, it raises `ValueError`.

Modules:

| file | module | what it holds |
|---|---|---|
| `wrappers.dfy` | `Wrappers` | `Option` and `Result` |
| `employee.dfy` | `Employees` | the `Employee` record of `hr_app/model.py` |
| `sqlite_text.dfy` | `SqliteText` | SQLite's BINARY collation (used by `ORDER BY name`) and its default `LIKE` (`%`, `_`, ASCII-only case folding, no escape character) |
| `employee_table.dfy` | `EmployeeTable` | the table as `map<string, Employee>`, the intended schema as an invariant, and what the SELECT, SUM, AVG … GROUP BY and UPDATE … SET statements compute |
| `hr_store.dfy` | `HRStore` | the class `HRManagementSystem`: its field `table` is the table's contents, and each method changes or reads it as the Python method's SQL does |
| `store_scenarios.dfy` | `StoreScenarios` | call sequences on a store: add then find, add twice, refused update, delete twice, empty report, a three-record report and a case-folded search |
| `salary_input.dfy` | `SalaryInput` | the cleaner: the six deletions, `strip()`, a decimal parser and `SanitizeSalaryInput` |
| `salary_examples.dfy` | `SalaryExamples` | round trip with a decimal formatter, and the documented example inputs |

Salaries are exact `real` numbers. The store's table is a `map` from `emp_id` to the row. A SQL statement that returns rows in an order the engine chooses is a method whose contract admits every such order. `ORDER BY name` ties and `GROUP BY` order are examples.

Three points where the code decides what a reader might expect otherwise:

- The docstring and comment of `add_employee` (hr_app/db.py:40-42) speak of Pydantic validation. But `Employee` is a plain dataclass with no checks (hr_app/model.py:4-10), and `add_employee` passes the record straight to the INSERT. So the store does no trimming, no empty-string check and no rounding, and neither does the model.
- An empty search fragment gives the pattern `%%` (hr_app/db.py:109), which matches every name. `FindEmployeesByName` and `EmployeeTable.EmptySearchKeepsAll` state this.
- SQLite's default `LIKE` folds ASCII case, so `"a"` and `"A"` both find Alice and Carol. `StoreScenarios.CaseInsensitiveSearch` states this.

## Model

| member | source | states |
|---|---|---|
| HRStore.HRManagementSystem.constructor | hr_app/db.py:9-11 | opening a store keeps the rows the table already holds, and they satisfy the schema |
| HRStore.HRManagementSystem.AddEmployee | hr_app/db.py:39-55 | succeeds iff the id is new and the salary is non-negative; then exactly that row is added with "Employee added successfully."; otherwise (PRIMARY KEY or CHECK violation) "Employee ID already exists." and the table is unchanged |
| HRStore.HRManagementSystem.GetAllEmployees | hr_app/db.py:57-79 | every stored record exactly once, nothing else, sorted by name under the BINARY collation; as many records as ids; `[]` for an empty table |
| HRStore.HRManagementSystem.FindEmployeeById | hr_app/db.py:84-99 | `Some` of the record stored under exactly that id, `None` iff no record has it |
| HRStore.HRManagementSystem.FindEmployeesByName | hr_app/db.py:105-127 | exactly the records whose name matches `%name%`, each once, sorted by name; for a fragment without `%`/`_` these are the records whose name contains it up to ASCII case; an empty fragment lists every record |
| HRStore.HRManagementSystem.UpdateEmployee | hr_app/db.py:132-160 | true iff the salary is absent or non-negative, some field is supplied and the id exists; when false nothing changes; when true only the supplied fields of that record change, its id, the other records and the set of ids stay as they were, and the schema still holds |
| HRStore.HRManagementSystem.DeleteEmployee | hr_app/db.py:165-173 | true iff the id was present; afterwards the table is the old one without that id |
| HRStore.HRManagementSystem.SalaryReport | hr_app/db.py:178-187 | total is the sum of all salaries (0 for an empty table, never negative); one pair per distinct department present, none twice, each holding that department's average, so as many pairs as departments; no pairs for an empty table |
| HRStore.RowsToEmployees | hr_app/db.py:65-79 | the row-to-record loop keeps every fetched row, in fetch order |
| HRStore.SetList | hr_app/db.py:140-153 | the SET list is empty iff no field is supplied; applied to a row it gives `Updated`, the row with exactly the supplied name, department, role and salary replaced and every other column kept |
| HRStore.Append | hr_app/db.py:143-149 | appending an assignment to the SET list applies it after the earlier ones |
| HRStore.SelectSum | hr_app/db.py:182-183 | `SUM(salary)` is NULL for no rows, otherwise the total of the salaries |
| HRStore.SelectAverage | hr_app/db.py:184 | `AVG(salary)` over a department present in the table is its group's total divided by the group size |
| HRStore.SelectAverageByDepartment | hr_app/db.py:184-185 | the GROUP BY result names every present department exactly once and only those, each with its average |
| HRStore.AppendGroup | hr_app/db.py:184-185 | adding a not-yet-listed department with its average keeps the report duplicate-free and correct |
| HRStore.GroupNamesSnoc | hr_app/db.py:184-185 | the departments named by a report grow by exactly the appended pair's name |
| HRStore.NoGroupNames | hr_app/db.py:183-187 | a report names no department iff it has no pairs |
| HRStore.GroupCount | hr_app/db.py:184-187 | a report names at most as many departments as it has pairs, and exactly that many when no department repeats |
| EmployeeTable.SelectOrderedByName | hr_app/db.py:61-62 | `SELECT … ORDER BY name` returns every row of the table exactly once, sorted by name (ties in any order) |
| EmployeeTable.ListingLength | hr_app/db.py:57-79 | a listing that holds each stored record exactly once has one entry per id |
| EmployeeTable.DropLast | hr_app/db.py:57-79 | a listing without its last row lists the table without that row's record |
| EmployeeTable.FrontListsTheRest | hr_app/db.py:57-79 | every other record is still in the listing without its last row |
| EmployeeTable.InsertionPoint | hr_app/db.py:61 | the insertion index has only names sorting no later before it and a name sorting later at it |
| EmployeeTable.InsertKeepsSorted | hr_app/db.py:61 | inserting a row at its insertion point keeps a list sorted by name |
| EmployeeTable.InsertKeepsListing | hr_app/db.py:61 | inserting a new record into a listing gives a listing of the enlarged table |
| EmployeeTable.SearchKeepsContaining | hr_app/db.py:109-110 | `WHERE name LIKE '%f%'` for a wildcard-free `f` keeps exactly the rows whose name contains `f` up to ASCII case |
| EmployeeTable.EmptySearchKeepsAll | hr_app/db.py:109-110 | `WHERE name LIKE '%%'` keeps the whole table |
| EmployeeTable.TotalSalaryRemove | hr_app/db.py:182 | the sum does not depend on which row is taken first |
| EmployeeTable.TotalSalaryInsert | hr_app/db.py:182 | a new row adds its salary to the sum |
| EmployeeTable.TotalSalaryNonNegative | hr_app/db.py:182-183 | under the `CHECK (salary >= 0)` schema the sum is never negative |
| EmployeeTable.GroupsCoverTable | hr_app/db.py:184 | the groups of `GROUP BY department` cover every row exactly once: each row lies in its own department's group, which is a present department, and in no other group |
| EmployeeTable.InDepartmentInsert | hr_app/db.py:184 | a new row changes only its own department's group |
| EmployeeTable.AssignAll | hr_app/db.py:154-156 | the UPDATE's SET list never changes `emp_id`, and keeps the salary non-negative when every salary it assigns is |
| EmployeeTable.AssignAllSnoc | hr_app/db.py:155-156 | assignments in the SET list take effect left to right |
| SqliteText.BinaryLeReflexive | hr_app/db.py:61 | every name sorts no later than itself |
| SqliteText.BinaryLeTotal | hr_app/db.py:61 | any two names are ordered one way or the other |
| SqliteText.BinaryLeTransitive | hr_app/db.py:61 | the collation order is transitive |
| SqliteText.BinaryLeAntisymmetric | hr_app/db.py:61 | names that sort no later than each other are equal |
| SqliteText.FoldAscii | hr_app/db.py:110 | `LIKE` folds each ASCII capital to its own lower-case letter (code plus 32) and leaves every other character alone |
| SqliteText.PercentMatchesAll | hr_app/db.py:109 | a lone `%` matches every name |
| SqliteText.LeadingPercent | hr_app/db.py:109 | a leading `%` matches iff the rest of the pattern matches some suffix |
| SqliteText.LiteralThenPercent | hr_app/db.py:109 | a wildcard-free fragment followed by `%` matches exactly the names it prefixes up to ASCII case |
| SqliteText.LikeContains | hr_app/db.py:109-110 | `%f%` for a wildcard-free `f` matches exactly the names containing `f` up to ASCII case, in both directions |
| SqliteText.EmptyFragmentMatchesAll | hr_app/db.py:109-110 | the empty fragment's pattern `%%` matches every name |
| StoreScenarios.AddThenFind | hr_app/db.py:39-99 | after an add, lookup by that id returns the added record; after a refused add, what was there before |
| StoreScenarios.AddTwice | hr_app/db.py:45-53 | a second add of the same id fails with the duplicate message; the first record stays and the store holds one more record than before |
| StoreScenarios.UpdateNegativeSalary | hr_app/db.py:134-136 | an update with a negative salary fails for every id and leaves the stored record as it was |
| StoreScenarios.DeleteTwice | hr_app/db.py:165-173 | the first delete reports presence, the second always fails, the id is gone, and the store lost one record iff the id was there |
| StoreScenarios.EmptyReport | hr_app/db.py:182-187 | an empty store reports total 0 and no departments |
| StoreScenarios.ThreeRecords | hr_app/db.py:39-53 | the table of Alice, Bob and Carol satisfies the schema |
| StoreScenarios.ThreeRecordTotal | hr_app/db.py:182-183 | Alice, Bob and Carol total 210000 |
| StoreScenarios.EngGroup | hr_app/db.py:184 | the Eng group is Alice and Bob |
| StoreScenarios.EngAverage | hr_app/db.py:184 | Eng averages 80000 |
| StoreScenarios.SalesGroup | hr_app/db.py:184 | the Sales group is Carol |
| StoreScenarios.SalesAverage | hr_app/db.py:184 | Sales averages 50000 |
| StoreScenarios.ThreeRecordDepartments | hr_app/db.py:184 | the departments present are Eng and Sales |
| StoreScenarios.ThreeRecordGroups | hr_app/db.py:184-187 | any correct, duplicate-free report over the three records is exactly (Eng, 80000) and (Sales, 50000) |
| StoreScenarios.ThreeRecordReport | hr_app/db.py:178-187 | adding the three records and asking for the report gives 210000, (Eng, 80000) and (Sales, 50000) |
| StoreScenarios.PatternMatches | hr_app/db.py:109-110 | `%a%` and `%A%` both match Alice and Carol and not Bob |
| StoreScenarios.SearchMatches | hr_app/db.py:109-110 | the search for "a" or "A" keeps the rows of Alice and Carol |
| StoreScenarios.AliceThenCarol | hr_app/db.py:110 | a name-ordered listing of Alice and Carol is Alice first |
| StoreScenarios.CaseInsensitiveSearch | hr_app/db.py:105-127 | over the three records, searching "a" or "A" returns exactly [Alice, Carol] |
| SalaryInput.DeleteChar | hr_app/utils.py:29-34 | `replace(c, "")` leaves no `c` and never lengthens the string |
| SalaryInput.KeepNonSymbols | hr_app/utils.py:28-34 | the reference filter's result holds none of the six characters |
| SalaryInput.DeleteCharAppend | hr_app/utils.py:29-34 | deleting a character distributes over concatenation |
| SalaryInput.KeepNonSymbolsAppend | hr_app/utils.py:28-34 | the reference filter distributes over concatenation |
| SalaryInput.DeleteSymbolsKeepsTheRest | hr_app/utils.py:28-34 | the six `replace` calls delete exactly the six characters and keep every other character in order |
| SalaryInput.KeepNonSymbolsOfSymbolFree | hr_app/utils.py:28-34 | a string without the six characters passes the deletions unchanged |
| SalaryInput.StripLeading | hr_app/utils.py:35 | stripping the front removes a whitespace-only prefix and leaves no leading whitespace |
| SalaryInput.StripTrailing | hr_app/utils.py:35 | stripping the back removes a whitespace-only suffix and leaves no trailing whitespace |
| SalaryInput.Strip | hr_app/utils.py:35 | `strip()` leaves no whitespace at either end and adds no character |
| SalaryInput.StripCutsOnlyWhitespace | hr_app/utils.py:35 | the stripped string is a slice of the input with only whitespace on either side |
| SalaryInput.WhitespaceOnBothSides | hr_app/utils.py:35 | stripping front then back yields a slice with whitespace on both sides |
| SalaryInput.StripOfTrimmed | hr_app/utils.py:35 | stripping a string with no outer whitespace changes nothing |
| SalaryInput.StripLeadingSpaces | hr_app/utils.py:35 | a whitespace prefix before a non-space is exactly what the front strip removes |
| SalaryInput.StripTrailingSpaces | hr_app/utils.py:35 | a whitespace suffix after a non-space is exactly what the back strip removes |
| SalaryInput.StripPadded | hr_app/utils.py:35 | `strip()` of whitespace, text, whitespace is the text |
| SalaryInput.Clean | hr_app/utils.py:28-36 | the cleaned string holds none of the six characters and has no outer whitespace |
| SalaryInput.CleanIsStripOfFiltered | hr_app/utils.py:28-36 | cleaning only deletes the six characters and then trims: every other character keeps its order |
| SalaryInput.CleanIdempotent | hr_app/utils.py:28-36 | cleaning a cleaned string returns it unchanged |
| SalaryInput.CleanOfTrimmedSymbolFree | hr_app/utils.py:28-36 | a string without the six characters and outer whitespace is already clean |
| SalaryInput.SymbolIgnoredAnywhere | hr_app/utils.py:28-34 | inserting one of the six characters anywhere does not change the cleaned string |
| SalaryInput.FilterIgnoresSymbol | hr_app/utils.py:28-34 | inserting one of the six characters anywhere does not change the filtered string |
| SalaryInput.DigitValue | hr_app/utils.py:39 | a decimal digit's value is at most 9 |
| SalaryInput.FractionValue | hr_app/utils.py:39 | the digits after the point denote a value in [0, 1) |
| SalaryInput.Pow10 | hr_app/utils.py:39 | a power of ten is at least 1 |
| SalaryInput.DigitsValueCons | hr_app/utils.py:39 | a leading digit contributes its value times ten to the number of digits after it |
| SalaryInput.FractionDigits | hr_app/utils.py:39 | the digits after the point denote their whole-number value divided by ten to the number of digits |
| SalaryInput.FirstDot | hr_app/utils.py:39 | the index of the first `.`, or the length when there is none |
| SalaryInput.PointIsFirstDot | hr_app/utils.py:39 | the point of a decimal literal is its first `.` |
| SalaryInput.ParseUnsigned | hr_app/utils.py:39 | an unsigned literal never parses to a negative value |
| SalaryInput.ParseUnsignedAccepts | hr_app/utils.py:38-39 | the unsigned parser accepts exactly `d+`, `d+.`, `d+.d+` and `.d+` |
| SalaryInput.SignedIsNotUnsigned | hr_app/utils.py:39 | a string starting with a sign is not an unsigned literal |
| SalaryInput.ParseDecimalAccepts | hr_app/utils.py:38-44 | the parser accepts exactly the decimal literals with an optional sign, and rejects everything else |
| SalaryInput.SanitizeSalaryInput | hr_app/utils.py:7-44 | a value iff the cleaned string is a decimal literal; otherwise the error, carrying the original input |
| SalaryExamples.DigitChar | hr_app/utils.py:39 | the digit character of a value 0–9 has that value |
| SalaryExamples.NatToDecimal | hr_app/utils.py:39 | a whole number's decimal spelling is a non-empty run of digits |
| SalaryExamples.NatToDecimalValue | hr_app/utils.py:39 | the digits of a whole number's spelling denote that number |
| SalaryExamples.ParseUnsignedDigits | hr_app/utils.py:39 | a run of digits parses as an unsigned literal to its value |
| SalaryExamples.ParseDigits | hr_app/utils.py:39 | a run of digits parses to its value |
| SalaryExamples.ParseNegatedDigits | hr_app/utils.py:39 | a minus sign and digits parse to the negated value |
| SalaryExamples.ParseMinusDigits | hr_app/utils.py:39 | the same, for a string given as the sign followed by the digits |
| SalaryExamples.DigitsSymbolFree | hr_app/utils.py:28-34 | digits are never deleted |
| SalaryExamples.SanitizeDigits | hr_app/utils.py:7-44 | a run of digits is already clean and sanitizes to its value |
| SalaryExamples.SanitizeNegatedDigits | hr_app/utils.py:7-44 | a minus sign before digits is kept and the value is minus the digits' value |
| SalaryExamples.SanitizeWholeNumber | hr_app/utils.py:7-44 | every whole number written in plain decimal sanitizes back to itself |
| SalaryExamples.SanitizeNegativeWholeNumber | hr_app/utils.py:7-44 | every negative whole number written in plain decimal sanitizes back to itself |
| SalaryExamples.DigitsValueSnoc | hr_app/utils.py:39 | appending a digit multiplies the value by ten and adds the digit |
| SalaryExamples.Value75000 | hr_app/utils.py:13 | "75000" denotes 75000 |
| SalaryExamples.Value500 | hr_app/utils.py:39 | "500" denotes 500 |
| SalaryExamples.Sanitize75000 | hr_app/utils.py:13 | "75000" is clean and sanitizes to 75000 |
| SalaryExamples.DocumentedExamples | hr_app/utils.py:12-17 | "75000", "75,000", "$75,000", "₹75,000" and "75_000" all sanitize to 75000 |
| SalaryExamples.CleanSpacedAmount | hr_app/utils.py:28-35 | " $ 75,000 " cleans as "  75000 " does |
| SalaryExamples.SpacesSymbolFree | hr_app/utils.py:28-35 | whitespace is never deleted by the `replace` calls |
| SalaryExamples.SymbolFreeConcat | hr_app/utils.py:28-34 | two strings without the six characters stay without them when joined |
| SalaryExamples.CleanOfSymbolFree | hr_app/utils.py:28-36 | on a string without the six characters, cleaning is `strip()` |
| SalaryExamples.PaddedSymbolFree | hr_app/utils.py:28-35 | digits padded with whitespace hold none of the six characters |
| SalaryExamples.StripPaddedDigits | hr_app/utils.py:35 | `strip()` of digits padded with whitespace is the digits |
| SalaryExamples.CleanPadded | hr_app/utils.py:28-36 | cleaning digits padded with whitespace gives the digits |
| SalaryExamples.CleanPaddedDigits | hr_app/utils.py:35 | "  75000 " cleans to "75000" |
| SalaryExamples.SpacesAroundSymbols | hr_app/utils.py:28-39 | trimming comes after deletion, so " $ 75,000 " sanitizes to 75000 |
| SalaryExamples.NotANumber | hr_app/utils.py:38-44 | "abc" gives the error carrying "abc", never a value |
| SalaryExamples.NegativeAmount | hr_app/utils.py:39 | "-500" sanitizes to -500: no sign check is made |
| SalaryExamples.PointAfterDigits | hr_app/utils.py:39 | in digits, a point and digits, the point is the first `.` |
| SalaryExamples.ParsePointed | hr_app/utils.py:39 | digits, a point and digits parse to the whole part plus the fraction's value |
| SalaryExamples.PointedIsClean | hr_app/utils.py:28-36 | digits, a point and digits are already clean |
| SalaryExamples.SanitizePointed | hr_app/utils.py:7-44 | digits, a point and digits sanitize to the whole part plus the fraction's value |
| SalaryExamples.SanitizeDecimal | hr_app/utils.py:7-44 | every whole number written in plain decimal, followed by a point and any digits, sanitizes to that number plus the fraction's value |
| SalaryExamples.FractionIsClean | hr_app/utils.py:28-36 | a point followed by digits is already clean |
| SalaryExamples.ParseFraction | hr_app/utils.py:39 | a point followed by digits parses to the fraction's value |
| SalaryExamples.SanitizeFraction | hr_app/utils.py:7-44 | a point followed by digits sanitizes to the fraction's value |
| SalaryExamples.FiftyCents | hr_app/utils.py:39 | the fraction digits "50" denote one half |
| SalaryExamples.SanitizeWithCents | hr_app/utils.py:7-44 | "75000.50" sanitizes to 75000.5 |
| SalaryExamples.GroupedWithCents | hr_app/utils.py:7-44 | "75,000.50" sanitizes to 75000.5 |

## Left out

- Storage failures are not modelled. This covers a failed connection (`_connect`, hr_app/db.py:13-19) and the broad `except` branches that turn any other error into a failure value (hr_app/db.py:54-55, 80-82, 100-102, 128-130, 161-163, 174-176, 188-190). A failing SQLite call has no counterpart in a `map`. Commit, close and the `print` logging are left out as well.
- Table creation is not modelled. The `CREATE TABLE` text at hr_app/db.py:25-33 has `#` comments after its column definitions. SQLite rejects `#` as an unrecognized token, so `_create_table` would fail and its error is swallowed at hr_app/db.py:36-37. The model assumes the table exists with the intended schema: `emp_id` as primary key and `CHECK (salary >= 0)`. That schema is the store's invariant (`EmployeeTable.WellFormed`), which the constructor requires and every method keeps.
- The database file path, its environment variable (hr_app/config.py) and the constructor's `db_file` argument are not modelled. hr_app/config.py is not part of this model.
- The `NOT NULL` constraints are not modelled, because strings in the model are never null.
- The front ends and the agent are not part of this model: hr_app/agent.py, app.py and cli.py. `print_employees_table`, imported by cli.py, is not part of this model either.
- The `except` that skips a row whose record cannot be built (hr_app/db.py:76-78 and 124-126) is not modelled. The `Employee` dataclass does no validation, so building a record from a row cannot fail. `RowsToEmployees` keeps every row.
- Floating point is not modelled. Salaries are exact reals, so binary rounding in `SUM`, `AVG` and `float()` is left out.
- SalaryInput.SanitizeSalaryInput: parses only plain decimal literals (optional sign, ASCII digits, at most one point). Python's `float()` also accepts exponents, `inf`, `nan`, underscores between digits and non-ASCII digits. The cleaner has already deleted every `_`, so only the other forms are missing from the accepted set.
- SalaryInput.SanitizeSalaryInput: does not model the exact text of the `ValueError` message. The error carries the original input, which is the only variable part of that message.
- HRStore.HRManagementSystem.FindEmployeesByName: the substring characterization holds only for fragments without `%` or `_`. The fragment is not escaped, so those characters act as wildcards. The general case is stated through the modelled `LIKE` operator (`SqliteText.Like`).
- HRStore.HRManagementSystem.SalaryReport: the contract does not fix the order of the (department, average) pairs or of records with equal names in listings. SQLite does not promise those orders.
- The model's `Like` compares characters. SQLite's `LIKE` compares UTF-8 code points, which is the same thing for well-formed text. Likewise, `BinaryLe` compares code points, which orders strings as SQLite's byte-wise BINARY collation of their UTF-8 encoding does.
