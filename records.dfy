/** The tracker's record types: one row of each of the four tables. */
module Records {

  /** A calendar date as a day number, so that `d + timedelta(days=n)` is `d + n`
      and date comparison is integer comparison. */
  type Date = int

  /** One certificate held by one employee for one course: the fact table. */
  datatype EmployeeCertificate = EmployeeCertificate(
    employeeId: int,
    courseId: string,
    certificateName: string,
    certificateId: string,
    issueDate: Date,
    expiryDate: Date)

  datatype Employee = Employee(
    employeeId: int,
    firstName: string,
    lastName: string,
    companyName: string,
    department: string,
    email: string)

  datatype Company = Company(companyId: int, companyName: string, companyEmail: string)

  datatype Course = Course(courseId: string, courseName: string, certificateName: string)

  // Keys by which the repositories count, group and index their records.

  function CertEmployeeId(c: EmployeeCertificate): int { c.employeeId }

  function CertCourseId(c: EmployeeCertificate): string { c.courseId }

  function CertName(c: EmployeeCertificate): string { c.certificateName }

  function CourseKey(c: Course): string { c.courseId }

  function EmployeeKey(e: Employee): int { e.employeeId }
}
