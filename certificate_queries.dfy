/** The certificate repository's queries (the DataFrame-backed
    EmployeeCertificateHandler), each over the sequence `certs` that its
    `load_all` yields, in load order. The filters and counts are pure; the
    groupings and the summary are loops filling a `defaultdict(list)`. */
module CertificateQueries {
  import opened Records
  import opened Seqs
  import opened Grouping
  import Text

  /** `get_certificate_by_id` (and `get_by_id`, which delegates to it): the
      first certificate in load order with that id, or None. */
  function CertificateById(certs: seq<EmployeeCertificate>, certificateId: string): (r: Option<EmployeeCertificate>)
    ensures r.None? <==> forall c :: c in certs ==> c.certificateId != certificateId
    ensures r.Some? ==> r.value.certificateId == certificateId
    ensures r.Some? ==> exists i :: 0 <= i < |certs| && certs[i] == r.value
                           && forall j :: 0 <= j < i ==> certs[j].certificateId != certificateId
  {
    match First(certs, (c: EmployeeCertificate) => c.certificateId == certificateId)
    case None => None
    case Some(i) => Some(certs[i])
  }

  /** The lower-cased search term occurs in the lower-cased certificate name. */
  predicate NameMatches(c: EmployeeCertificate, searchTerm: string) {
    Text.Contains(Text.Lower(c.certificateName), Text.Lower(searchTerm))
  }

  function MatchesTerm(searchTerm: string): EmployeeCertificate -> bool {
    (c: EmployeeCertificate) => NameMatches(c, searchTerm)
  }

  /** `find_by_certificate_name`: case-insensitive substring search, in load order. */
  function FindByCertificateName(certs: seq<EmployeeCertificate>, searchTerm: string): (r: seq<EmployeeCertificate>)
    ensures IsSubsequence(r, certs)
    ensures forall c :: c in r <==> c in certs && NameMatches(c, searchTerm)
    ensures forall c :: multiset(r)[c] == if NameMatches(c, searchTerm) then multiset(certs)[c] else 0
  {
    FilterCounts(certs, MatchesTerm(searchTerm));
    Filter(certs, MatchesTerm(searchTerm))
  }

  /** The search does not depend on the case of the search term. */
  lemma SearchIgnoresTermCase(certs: seq<EmployeeCertificate>, searchTerm: string)
    ensures FindByCertificateName(certs, searchTerm) == FindByCertificateName(certs, Text.Lower(searchTerm))
  {
    Text.LowerIdempotent(searchTerm);
    FilterAgree(certs, MatchesTerm(searchTerm), MatchesTerm(Text.Lower(searchTerm)));
  }

  /** An empty search term matches every certificate. */
  lemma EmptySearchMatchesAll(certs: seq<EmployeeCertificate>)
    ensures FindByCertificateName(certs, "") == certs
  {
    forall c | c in certs ensures NameMatches(c, "") {
      Text.ContainsBounds(Text.Lower(c.certificateName), "");
    }
    FilterKeepsAll(certs, MatchesTerm(""));
  }

  /** `get_employee_certificates_by_employee_id`: the certificates of one
      employee, in load order; an unknown id gives the empty list. */
  function ByEmployeeId(certs: seq<EmployeeCertificate>, employeeId: int): (r: seq<EmployeeCertificate>)
    ensures IsSubsequence(r, certs)
    ensures forall c :: c in r <==> c in certs && c.employeeId == employeeId
    ensures forall c :: multiset(r)[c] == if c.employeeId == employeeId then multiset(certs)[c] else 0
    ensures (forall c :: c in certs ==> c.employeeId != employeeId) ==> r == []
  {
    FilterCounts(certs, KeyIs(CertEmployeeId, employeeId));
    WithKey(certs, CertEmployeeId, employeeId)
  }

  /** `get_employee_certificates_by_course_id`: the certificates of one course,
      in load order; an unknown id gives the empty list. */
  function ByCourseId(certs: seq<EmployeeCertificate>, courseId: string): (r: seq<EmployeeCertificate>)
    ensures IsSubsequence(r, certs)
    ensures forall c :: c in r <==> c in certs && c.courseId == courseId
    ensures forall c :: multiset(r)[c] == if c.courseId == courseId then multiset(certs)[c] else 0
    ensures (forall c :: c in certs ==> c.courseId != courseId) ==> r == []
  {
    FilterCounts(certs, KeyIs(CertCourseId, courseId));
    WithKey(certs, CertCourseId, courseId)
  }

  function ExpiresBetween(startDate: Date, endDate: Date): EmployeeCertificate -> bool {
    (c: EmployeeCertificate) => startDate <= c.expiryDate <= endDate
  }

  /** `get_certificates_expiring_in_time_range`: both bounds inclusive, load
      order kept; an inverted range selects nothing. */
  function ExpiringInRange(certs: seq<EmployeeCertificate>, startDate: Date, endDate: Date): (r: seq<EmployeeCertificate>)
    ensures IsSubsequence(r, certs) && |r| <= |certs|
    ensures forall c :: c in r <==> c in certs && startDate <= c.expiryDate <= endDate
    ensures forall c :: multiset(r)[c] == if startDate <= c.expiryDate <= endDate then multiset(certs)[c] else 0
    ensures startDate > endDate ==> r == []
  {
    FilterCounts(certs, ExpiresBetween(startDate, endDate));
    Filter(certs, ExpiresBetween(startDate, endDate))
  }

  /** `get_certificates_expiring_within`: the range query on
      `[fromDate, fromDate + days]`; a negative `days` selects nothing. */
  function ExpiringWithin(certs: seq<EmployeeCertificate>, days: int, fromDate: Date): (r: seq<EmployeeCertificate>)
    ensures IsSubsequence(r, certs)
    ensures forall c :: c in r <==> c in certs && fromDate <= c.expiryDate <= fromDate + days
    ensures forall c :: multiset(r)[c] == if fromDate <= c.expiryDate <= fromDate + days then multiset(certs)[c] else 0
    ensures days < 0 ==> r == []
  {
    var cutoff := fromDate + days;
    ExpiringInRange(certs, fromDate, cutoff)
  }

  /** `get_upcoming_expirations`, with the clock read `date.today()` passed in
      as `today`. */
  function UpcomingExpirations(certs: seq<EmployeeCertificate>, daysAhead: int, today: Date): (r: seq<EmployeeCertificate>)
    ensures IsSubsequence(r, certs)
    ensures forall c :: c in r <==> c in certs && today <= c.expiryDate <= today + daysAhead
    ensures forall c :: multiset(r)[c] == if today <= c.expiryDate <= today + daysAhead then multiset(certs)[c] else 0
    ensures r == ExpiringWithin(certs, daysAhead, today)
  {
    ExpiringInRange(certs, today, today + daysAhead)
  }

  /** `count_certificates_by_employee`: each employee id present maps to its
      number of certificates, and the counts add up to the number of
      certificates. */
  function CountCertificatesByEmployee(certs: seq<EmployeeCertificate>): (counts: map<int, nat>)
    ensures counts.Keys == KeySet(certs, CertEmployeeId)
    ensures forall k :: k in counts ==> counts[k] == |ByEmployeeId(certs, k)| >= 1
    ensures SumOver(counts, KeyOrder(certs, CertEmployeeId)) == |certs|
  {
    CountIsGroupSize(certs, CertEmployeeId);
    CountsSumToLength(certs, CertEmployeeId);
    CountBy(certs, CertEmployeeId)
  }

  /** `count_certificates_by_course`: the same per course id. */
  function CountCertificatesByCourse(certs: seq<EmployeeCertificate>): (counts: map<string, nat>)
    ensures counts.Keys == KeySet(certs, CertCourseId)
    ensures forall k :: k in counts ==> counts[k] == |ByCourseId(certs, k)| >= 1
    ensures SumOver(counts, KeyOrder(certs, CertCourseId)) == |certs|
  {
    CountIsGroupSize(certs, CertCourseId);
    CountsSumToLength(certs, CertCourseId);
    CountBy(certs, CertCourseId)
  }

  /** `group_certificates_by_employee`: each employee id present maps to that
      employee's certificates in load order; no group is empty and together
      the groups hold every certificate exactly once. */
  method GroupCertificatesByEmployee(certs: seq<EmployeeCertificate>) returns (groups: map<int, seq<EmployeeCertificate>>)
    ensures groups.Keys == KeySet(certs, CertEmployeeId)
    ensures forall k :: k in groups ==> groups[k] == ByEmployeeId(certs, k) && groups[k] != []
    ensures TotalLength(groups, KeyOrder(certs, CertEmployeeId)) == |certs|
  {
    groups := GroupBy(certs, CertEmployeeId);
    GroupsAreClasses(certs, CertEmployeeId);
    GroupSizesSumToLength(certs, CertEmployeeId);
  }

  /** `group_certificates_by_course`: the same per course id. */
  method GroupCertificatesByCourse(certs: seq<EmployeeCertificate>) returns (groups: map<string, seq<EmployeeCertificate>>)
    ensures groups.Keys == KeySet(certs, CertCourseId)
    ensures forall k :: k in groups ==> groups[k] == ByCourseId(certs, k) && groups[k] != []
    ensures TotalLength(groups, KeyOrder(certs, CertCourseId)) == |certs|
  {
    groups := GroupBy(certs, CertCourseId);
    GroupsAreClasses(certs, CertCourseId);
    GroupSizesSumToLength(certs, CertCourseId);
  }

  /** The count for a key is the size of that key's group. */
  lemma CountsMatchGroups(certs: seq<EmployeeCertificate>)
    ensures forall k :: k in CountCertificatesByEmployee(certs) ==>
      k in Grouped(certs, CertEmployeeId) && CountCertificatesByEmployee(certs)[k] == |Grouped(certs, CertEmployeeId)[k]|
    ensures forall k :: k in CountCertificatesByCourse(certs) ==>
      k in Grouped(certs, CertCourseId) && CountCertificatesByCourse(certs)[k] == |Grouped(certs, CertCourseId)[k]|
  {
    CountIsGroupSize(certs, CertEmployeeId);
    CountIsGroupSize(certs, CertCourseId);
  }

  /** `certificates_by_employee_summary`: each employee id present maps to the
      names of that employee's certificates, in load order. */
  method CertificatesByEmployeeSummary(certs: seq<EmployeeCertificate>) returns (summary: map<int, seq<string>>)
    ensures summary.Keys == KeySet(certs, CertEmployeeId)
    ensures forall k :: k in summary ==> summary[k] == Project(ByEmployeeId(certs, k), CertName)
  {
    summary := map[];
    var i := 0;
    while i < |certs|
      invariant 0 <= i <= |certs|
      invariant summary.Keys == KeySet(certs[..i], CertEmployeeId)
      invariant forall k :: k in summary ==> summary[k] == Project(WithKey(certs[..i], CertEmployeeId, k), CertName)
    {
      var c := certs[i];
      var next := summary[c.employeeId := (if c.employeeId in summary then summary[c.employeeId] else []) + [c.certificateName]];
      SummaryStep(certs, i, summary, next);
      summary := next;
      i := i + 1;
    }
    assert certs[..i] == certs;
  }

  /** One iteration of the summary loop: `next` is `summary` after appending
      the name of `certs[i]` to the list of its employee. */
  lemma SummaryStep(certs: seq<EmployeeCertificate>, i: nat,
                    summary: map<int, seq<string>>, next: map<int, seq<string>>)
    requires i < |certs|
    requires summary.Keys == KeySet(certs[..i], CertEmployeeId)
    requires forall k :: k in summary ==> summary[k] == Project(WithKey(certs[..i], CertEmployeeId, k), CertName)
    requires var c := certs[i];
      next == summary[c.employeeId := (if c.employeeId in summary then summary[c.employeeId] else []) + [c.certificateName]]
    ensures next.Keys == KeySet(certs[..i + 1], CertEmployeeId)
    ensures forall k :: k in next ==> next[k] == Project(WithKey(certs[..i + 1], CertEmployeeId, k), CertName)
  {
    assert certs[..i + 1] == certs[..i] + [certs[i]];
    SummarySnoc(certs[..i], certs[i], summary, next);
  }

  /** The same step, stated for `s + [c]`. */
  lemma SummarySnoc(s: seq<EmployeeCertificate>, c: EmployeeCertificate,
                    summary: map<int, seq<string>>, next: map<int, seq<string>>)
    requires summary.Keys == KeySet(s, CertEmployeeId)
    requires forall k :: k in summary ==> summary[k] == Project(WithKey(s, CertEmployeeId, k), CertName)
    requires next == summary[c.employeeId := (if c.employeeId in summary then summary[c.employeeId] else []) + [c.certificateName]]
    ensures next.Keys == KeySet(s + [c], CertEmployeeId)
    ensures forall k :: k in next ==> next[k] == Project(WithKey(s + [c], CertEmployeeId, k), CertName)
  {
    KeySetSnoc(s, c, CertEmployeeId);
    forall k | k in next
      ensures next[k] == Project(WithKey(s + [c], CertEmployeeId, k), CertName)
    {
      WithKeySnoc(s, c, CertEmployeeId, k);
      if k == c.employeeId {
        if k !in summary {
          WithAbsentKey(s, CertEmployeeId, k);
        }
        ProjectSnoc(WithKey(s, CertEmployeeId, k), c, CertName);
      }
    }
  }
}
