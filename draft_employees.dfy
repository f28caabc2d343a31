/** The earlier EmployeeRepository: the same load-once cache with a lookup by id. */
module DraftEmployees {
  import opened Records
  import opened Seqs
  import opened CachedTables
  import CsvEmployees

  class EmployeeRepository {
    const table: CachedTable<Employee>

    constructor ()
      ensures fresh(table) && table.Valid() && table.cache == None
    {
      table := new CachedTable();
    }

    /** `load_all`: fills the cache on the first call, then returns it. */
    method LoadAll(file: seq<Employee>) returns (employees: seq<Employee>)
      requires table.Valid()
      modifies table
      ensures table.Valid() && table.cache == old(table.Filled(file))
      ensures employees == table.cache.value
    {
      employees := table.LoadAll(file);
    }

    /** `get_by_id` on the cached rows: the first employee with that id. */
    method GetById(file: seq<Employee>, employeeId: int) returns (r: Option<Employee>)
      requires table.Valid()
      modifies table
      ensures table.Valid() && table.cache == old(table.Filled(file))
      ensures r == CsvEmployees.EmployeeById(table.cache.value, employeeId)
    {
      var employees := LoadAll(file);
      r := CsvEmployees.EmployeeById(employees, employeeId);
    }
  }
}
