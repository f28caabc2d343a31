/** The DataFrame-backed EmployeeHandler: the employee table indexed by
    `employee_id`, fixed at construction. */
module PandasEmployees {
  import opened Records
  import opened Seqs
  import opened Frames
  import Text

  /** The columns of an employee row other than the index. */
  datatype EmployeeRow = EmployeeRow(
    firstName: string,
    lastName: string,
    companyName: string,
    department: string,
    email: string)

  /** `Employee(**row)` after `row["employee_id"] = employee_id`. */
  function ToEmployee(employeeId: int, row: EmployeeRow): Employee {
    Employee(employeeId, row.firstName, row.lastName, row.companyName, row.department, row.email)
  }

  /** `get_by_id`: the employee whose index key is `employeeId`, or None. */
  function GetById(frame: seq<(int, EmployeeRow)>, employeeId: int): (r: Option<Employee>)
    requires UniqueKeys(frame)
    ensures r.None? <==> forall i :: 0 <= i < |frame| ==> frame[i].0 != employeeId
    ensures r.Some? ==> r.value.employeeId == employeeId
    ensures forall i :: 0 <= i < |frame| && frame[i].0 == employeeId ==> r == Some(ToEmployee(employeeId, frame[i].1))
  {
    match Loc(frame, employeeId)
    case None => None
    case Some(row) => Some(ToEmployee(employeeId, row))
  }

  /** The row's `f"{first_name} {last_name}"`. */
  function FullName(row: EmployeeRow): string {
    row.firstName + " " + row.lastName
  }

  /** The lower-cased full name equals the lower-cased argument (whole-string
      equality, not a substring match). */
  predicate NameIs(row: EmployeeRow, employeeName: string) {
    Text.Lower(FullName(row)) == Text.Lower(employeeName)
  }

  /** `get_company_name_from_employee_name`: the company of the first row, in
      row order, whose full name matches case-insensitively; None if no row
      matches. The company is read back through the matched row's index key. */
  function CompanyNameFromEmployeeName(frame: seq<(int, EmployeeRow)>, employeeName: string): (r: Option<string>)
    requires UniqueKeys(frame)
    ensures r.None? <==> forall i :: 0 <= i < |frame| ==> !NameIs(frame[i].1, employeeName)
    ensures r.Some? ==> exists i :: 0 <= i < |frame| && NameIs(frame[i].1, employeeName)
                           && r.value == frame[i].1.companyName
                           && forall j :: 0 <= j < i ==> !NameIs(frame[j].1, employeeName)
  {
    match First(frame, (row: (int, EmployeeRow)) => NameIs(row.1, employeeName))
    case None => None
    case Some(i) =>
      var empId := frame[i].0;
      match Loc(frame, empId)
      case Some(row) => Some(row.companyName)
      case None => assert false; None
  }

  /** The match ignores case on both sides. */
  lemma NameMatchIgnoresCase(frame: seq<(int, EmployeeRow)>, employeeName: string)
    requires UniqueKeys(frame)
    ensures CompanyNameFromEmployeeName(frame, employeeName) == CompanyNameFromEmployeeName(frame, Text.Lower(employeeName))
  {
    Text.LowerIdempotent(employeeName);
    assert forall row :: NameIs(row, employeeName) == NameIs(row, Text.Lower(employeeName));
  }
}
