/** The CSV-backed EmployeeHandler: a load-once cache of the employee file,
    a lookup by id and two lookups by exact first and last name. */
module CsvEmployees {
  import opened Records
  import opened Seqs
  import opened CachedTables

  /** `next((e for e in employees if e.employee_id == employee_id), None)`. */
  function EmployeeById(employees: seq<Employee>, employeeId: int): (r: Option<Employee>)
    ensures r.None? <==> forall e :: e in employees ==> e.employeeId != employeeId
    ensures r.Some? ==> r.value.employeeId == employeeId
    ensures r.Some? ==> exists i :: 0 <= i < |employees| && employees[i] == r.value
                           && forall j :: 0 <= j < i ==> employees[j].employeeId != employeeId
  {
    match First(employees, (e: Employee) => e.employeeId == employeeId)
    case None => None
    case Some(i) => Some(employees[i])
  }

  /** Exact, case-sensitive match on both name parts. */
  predicate HasName(e: Employee, firstName: string, lastName: string) {
    e.firstName == firstName && e.lastName == lastName
  }

  /** The first employee, in load order, with exactly this first and last name. */
  function EmployeeNamed(employees: seq<Employee>, firstName: string, lastName: string): (r: Option<nat>)
    ensures r.None? <==> forall i :: 0 <= i < |employees| ==> !HasName(employees[i], firstName, lastName)
    ensures r.Some? ==> r.value < |employees| && HasName(employees[r.value], firstName, lastName)
    ensures r.Some? ==> forall j :: 0 <= j < r.value ==> !HasName(employees[j], firstName, lastName)
  {
    First(employees, (e: Employee) => HasName(e, firstName, lastName))
  }

  /** `get_employee_company_name`: the company of the first exact name match,
      or None. */
  function EmployeeCompanyName(employees: seq<Employee>, firstName: string, lastName: string): (r: Option<string>)
    ensures r.None? <==> forall e :: e in employees ==> !HasName(e, firstName, lastName)
    ensures r.Some? ==> exists i :: 0 <= i < |employees| && HasName(employees[i], firstName, lastName)
                           && r.value == employees[i].companyName
                           && forall j :: 0 <= j < i ==> !HasName(employees[j], firstName, lastName)
  {
    match EmployeeNamed(employees, firstName, lastName)
    case None => None
    case Some(i) => Some(employees[i].companyName)
  }

  /** `get_employee_email`: the email of the first exact name match, or None. */
  function EmployeeEmail(employees: seq<Employee>, firstName: string, lastName: string): (r: Option<string>)
    ensures r.None? <==> forall e :: e in employees ==> !HasName(e, firstName, lastName)
    ensures r.Some? ==> exists i :: 0 <= i < |employees| && HasName(employees[i], firstName, lastName)
                           && r.value == employees[i].email
                           && forall j :: 0 <= j < i ==> !HasName(employees[j], firstName, lastName)
  {
    match EmployeeNamed(employees, firstName, lastName)
    case None => None
    case Some(i) => Some(employees[i].email)
  }

  /** The company and the email a name lookup returns belong to the same
      employee: both are found or neither is. */
  lemma CompanyAndEmailAgree(employees: seq<Employee>, firstName: string, lastName: string)
    ensures EmployeeCompanyName(employees, firstName, lastName).Some?
        <==> EmployeeEmail(employees, firstName, lastName).Some?
    ensures EmployeeEmail(employees, firstName, lastName).Some? ==>
      exists i :: 0 <= i < |employees|
        && EmployeeCompanyName(employees, firstName, lastName) == Some(employees[i].companyName)
        && EmployeeEmail(employees, firstName, lastName) == Some(employees[i].email)
  {
    var k := EmployeeNamed(employees, firstName, lastName);
    if k.Some? {
      assert EmployeeCompanyName(employees, firstName, lastName) == Some(employees[k.value].companyName);
    }
  }

  class EmployeeHandler {
    const table: CachedTable<Employee>

    constructor ()
      ensures fresh(table) && table.Valid() && table.cache == None
    {
      table := new CachedTable();
    }

    /** `load_all`: fills the cache on the first call, then returns it. */
    method LoadAll(file: seq<Employee>) returns (employees: seq<Employee>)
      requires table.Valid()
      modifies table
      ensures table.Valid() && table.cache == old(table.Filled(file))
      ensures employees == table.cache.value
    {
      employees := table.LoadAll(file);
    }

    /** `get_by_id` on the cached rows. */
    method GetById(file: seq<Employee>, employeeId: int) returns (r: Option<Employee>)
      requires table.Valid()
      modifies table
      ensures table.Valid() && table.cache == old(table.Filled(file))
      ensures r == EmployeeById(table.cache.value, employeeId)
    {
      var employees := LoadAll(file);
      r := EmployeeById(employees, employeeId);
    }

    /** `get_employee_company_name` on the cached rows. */
    method GetEmployeeCompanyName(file: seq<Employee>, firstName: string, lastName: string) returns (r: Option<string>)
      requires table.Valid()
      modifies table
      ensures table.Valid() && table.cache == old(table.Filled(file))
      ensures r == EmployeeCompanyName(table.cache.value, firstName, lastName)
    {
      var employees := LoadAll(file);
      r := EmployeeCompanyName(employees, firstName, lastName);
    }

    /** `get_employee_email` on the cached rows. */
    method GetEmployeeEmail(file: seq<Employee>, firstName: string, lastName: string) returns (r: Option<string>)
      requires table.Valid()
      modifies table
      ensures table.Valid() && table.cache == old(table.Filled(file))
      ensures r == EmployeeEmail(table.cache.value, firstName, lastName)
    {
      var employees := LoadAll(file);
      r := EmployeeEmail(employees, firstName, lastName);
    }
  }
}
