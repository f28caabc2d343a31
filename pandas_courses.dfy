/** The DataFrame-backed CourseHandler: the course table indexed by
    `course_id`, fixed at construction. */
module PandasCourses {
  import opened Records
  import opened Seqs
  import opened Frames

  /** The columns of a course row other than the index. */
  datatype CourseRow = CourseRow(courseName: string, certificateName: string)

  /** `get_by_id`: the course whose index key is `courseId`, or None. */
  function GetById(frame: seq<(string, CourseRow)>, courseId: string): (r: Option<Course>)
    requires UniqueKeys(frame)
    ensures r.None? <==> forall i :: 0 <= i < |frame| ==> frame[i].0 != courseId
    ensures r.Some? ==> r.value.courseId == courseId
    ensures forall i :: 0 <= i < |frame| && frame[i].0 == courseId ==>
      r == Some(Course(courseId, frame[i].1.courseName, frame[i].1.certificateName))
  {
    match Loc(frame, courseId)
    case None => None
    case Some(row) => Some(Course(courseId, row.courseName, row.certificateName))
  }

  /** `get_by_course_name_from_certificate_name`: the course name of the first
      row, in row order, whose certificate name equals the argument exactly;
      None if there is none. */
  function CourseNameFromCertificateName(frame: seq<(string, CourseRow)>, certificateName: string): (r: Option<string>)
    ensures r.None? <==> forall i :: 0 <= i < |frame| ==> frame[i].1.certificateName != certificateName
    ensures r.Some? ==> exists i :: 0 <= i < |frame| && frame[i].1.certificateName == certificateName
                           && r.value == frame[i].1.courseName
                           && forall j :: 0 <= j < i ==> frame[j].1.certificateName != certificateName
  {
    match First(frame, (row: (string, CourseRow)) => row.1.certificateName == certificateName)
    case None => None
    case Some(i) => Some(frame[i].1.courseName)
  }
}
