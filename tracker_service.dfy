/** CertTrackerService: built once from what the certificate, course and
    employee repositories load, then answers expiry-window queries. */
module TrackerService {
  import opened Records
  import opened Seqs
  import opened Grouping
  import CertificateQueries

  class CertTrackerService {
    /** The certificates exactly as the certificate repository loaded them. */
    const employeeCerts: seq<EmployeeCertificate>
    /** `{c.course_id: c for c in course_repo.load_all()}`. */
    const courses: map<string, Course>
    /** `{e.employee_id: e for e in employee_repo.load_all()}`. */
    const employees: map<int, Employee>

    /** The three arguments are the `load_all()` results of the certificate,
        course and employee repositories. A repeated course or employee id
        keeps its last row. */
    constructor (certRows: seq<EmployeeCertificate>, courseRows: seq<Course>, employeeRows: seq<Employee>)
      ensures employeeCerts == certRows
      ensures courses == IndexBy(courseRows, CourseKey)
      ensures employees == IndexBy(employeeRows, EmployeeKey)
    {
      employeeCerts := certRows;
      courses := IndexBy(courseRows, CourseKey);
      employees := IndexBy(employeeRows, EmployeeKey);
    }

    /** `get_expiring_certificates`: the stored certificates with
        `start <= expiry_date <= end`, in stored order. The range is not
        checked: an inverted one gives the empty list. */
    function GetExpiringCertificates(start: Date, end: Date): (r: seq<EmployeeCertificate>)
      ensures IsSubsequence(r, employeeCerts) && |r| <= |employeeCerts|
      ensures forall c :: c in r <==> c in employeeCerts && start <= c.expiryDate <= end
      ensures forall c :: multiset(r)[c] == if start <= c.expiryDate <= end then multiset(employeeCerts)[c] else 0
      ensures start > end ==> r == []
    {
      CertificateQueries.ExpiringInRange(employeeCerts, start, end)
    }
  }
}
