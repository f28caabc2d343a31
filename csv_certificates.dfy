/** The CSV-backed EmployeeCertificateHandler: a load-once cache of the
    certificate file and three filters over the cached rows. */
module CsvCertificates {
  import opened Records
  import opened Seqs
  import opened CachedTables
  import CertificateQueries

  class EmployeeCertificateHandler {
    const table: CachedTable<EmployeeCertificate>

    constructor ()
      ensures fresh(table) && table.Valid() && table.cache == None
    {
      table := new CachedTable();
    }

    /** `load_all`: fills the cache on the first call, then returns it. */
    method LoadAll(file: seq<EmployeeCertificate>) returns (certs: seq<EmployeeCertificate>)
      requires table.Valid()
      modifies table
      ensures table.Valid() && table.cache == old(table.Filled(file))
      ensures certs == table.cache.value
    {
      certs := table.LoadAll(file);
    }

    /** `get_employee_certificates_by_employee_id` on the cached rows. */
    method GetEmployeeCertificatesByEmployeeId(file: seq<EmployeeCertificate>, employeeId: int)
      returns (r: seq<EmployeeCertificate>)
      requires table.Valid()
      modifies table
      ensures table.Valid() && table.cache == old(table.Filled(file))
      ensures r == CertificateQueries.ByEmployeeId(table.cache.value, employeeId)
    {
      var certs := LoadAll(file);
      r := CertificateQueries.ByEmployeeId(certs, employeeId);
    }

    /** `get_expired_employee_certificates_by_date_range` on the cached rows:
        `start_date <= expiry_date and expiry_date <= end_date`. */
    method GetExpiredEmployeeCertificatesByDateRange(file: seq<EmployeeCertificate>, startDate: Date, endDate: Date)
      returns (r: seq<EmployeeCertificate>)
      requires table.Valid()
      modifies table
      ensures table.Valid() && table.cache == old(table.Filled(file))
      ensures r == CertificateQueries.ExpiringInRange(table.cache.value, startDate, endDate)
    {
      var certs := LoadAll(file);
      r := CertificateQueries.ExpiringInRange(certs, startDate, endDate);
    }

    /** `get_employee_certificates_by_course_id` on the cached rows. */
    method GetEmployeeCertificatesByCourseId(file: seq<EmployeeCertificate>, courseId: string)
      returns (r: seq<EmployeeCertificate>)
      requires table.Valid()
      modifies table
      ensures table.Valid() && table.cache == old(table.Filled(file))
      ensures r == CertificateQueries.ByCourseId(table.cache.value, courseId)
    {
      var certs := LoadAll(file);
      r := CertificateQueries.ByCourseId(certs, courseId);
    }
  }
}
