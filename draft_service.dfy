/** The earlier CertificateService: the same construction and expiry-window
    query as CertTrackerService. */
module DraftService {
  import opened Records
  import opened Seqs
  import opened Grouping
  import CertificateQueries

  class CertificateService {
    const employeeCerts: seq<EmployeeCertificate>
    const courses: map<string, Course>
    const employees: map<int, Employee>

    constructor (certRows: seq<EmployeeCertificate>, courseRows: seq<Course>, employeeRows: seq<Employee>)
      ensures employeeCerts == certRows
      ensures courses == IndexBy(courseRows, CourseKey)
      ensures employees == IndexBy(employeeRows, EmployeeKey)
    {
      employeeCerts := certRows;
      courses := IndexBy(courseRows, CourseKey);
      employees := IndexBy(employeeRows, EmployeeKey);
    }

    /** `get_expiring_certificates`: both bounds inclusive, stored order kept. */
    function GetExpiringCertificates(start: Date, end: Date): (r: seq<EmployeeCertificate>)
      ensures IsSubsequence(r, employeeCerts)
      ensures forall c :: c in r <==> c in employeeCerts && start <= c.expiryDate <= end
      ensures forall c :: multiset(r)[c] == if start <= c.expiryDate <= end then multiset(employeeCerts)[c] else 0
      ensures start > end ==> r == []
    {
      CertificateQueries.ExpiringInRange(employeeCerts, start, end)
    }
  }
}
