# cert-tracker: certificate queries and aggregation, in Dafny

This project models the query and aggregation layer of cert-tracker, a small
service that tracks the safety certificates employees hold. The layer reads
four tables:

- employee certificates: the fact table;
- employees;
- companies;
- courses.

It answers lookups, searches, expiry-window queries, counts and groupings over
these tables. The model covers:

- **The certificate repository** in its DataFrame-backed form
  (`CertificateQueries`: the lookup by id, the case-insensitive name search,
  the filters by employee id and course id, the inclusive expiry-window
  queries, the counts, the groupings and the per-employee summary of
  certificate names).
- **The certificate repository** in its CSV-backed form (`CsvCertificates`).
- **The employee, company and course repositories**:
  - DataFrame-backed: `PandasEmployees`, `PandasCompanies`, `PandasCourses`;
  - CSV-backed: `CsvEmployees`, and the earlier `DraftEmployees`.
- **`CertTrackerService`** (`TrackerService`) and its earlier form,
  `CertificateService` (`DraftService`).

How the pieces are represented:

- **Tables.** A table's rows are a sequence in file order. Dates are day
  numbers, so adding `timedelta(days=n)` is `+ n`.
- **DataFrames.** A DataFrame with an index column is a sequence of
  (index key, row) pairs.
- **Python `dict`s** become Dafny maps. The order in which a dict lists its
  keys (first occurrence) is given separately by `Grouping.KeyOrder`.
- **The CSV repositories' load-once cache** (`_cache`) is the class
  `CachedTables.CachedTable`. It has a ghost counter that records how often
  the CSV loader ran. What the loader would return is passed in as a
  parameter.
- **Pure queries** are functions. Each is tied to a reference definition:
  - `Seqs.Filter` for list comprehensions;
  - `Seqs.First` for `next(..., None)`;
  - `Grouping.WithKey` for a filter on one key.
- **The loops that fill a `defaultdict(list)`** are methods. Each is proved
  against the corresponding function:
  - `Grouping.GroupBy` against `Grouping.Grouped`;
  - `CertificateQueries.CertificatesByEmployeeSummary` against
    `Seqs.Project` of the per-employee filter.

`Scenarios` replays the fixtures of the repository's tests on the model.

- The certificate fixture of
  `backend/project_root/tests/data_processor/test_cert_tracker_service.py:50-63`
  gives no `certificate_name` and no `certificate_id`, which the certificate
  record requires (`backend/project_root/app/data_models/employee_certificate.py:7-8`).
  As written, the fixture fails validation before any assertion runs.
  `Scenarios.ExpiryFixture` completes it with empty names and ids, and writes
  the course ids as strings.
- On that completed fixture, one result disagrees with the expectation the
  test writes down (line 105), not with a result the test can reach. The wide
  window `[today - 2, today + 15]` of lines 98-105 contains the certificate
  that expired yesterday. So the inclusive filter of `cert_tracker_service.py:21`
  keeps all four fixture certificates, not the three written at line 105.
- `Scenarios.WideWindow` proves the four.

## Model

| member | source | states |
|---|---|---|
| Seqs.Filter | backend/project_root/app/data_accessor/pandas/employee_certificate_handler.py:102-106 | a list comprehension's result is a subsequence of its input and holds exactly the input elements that pass the test; when none passes it is [] |
| Seqs.FilterCounts | backend/project_root/app/data_accessor/pandas/employee_certificate_handler.py:102-106 | each passing element is kept as often as it occurs in the input, every other element not at all |
| Seqs.FilterSnoc | backend/project_root/app/data_accessor/pandas/employee_certificate_handler.py:102-106 | appending one element to the input appends it to the result exactly when it passes |
| Seqs.FilterAgree | backend/project_root/app/data_accessor/pandas/employee_certificate_handler.py:61-66 | two tests that agree on every element select the same list |
| Seqs.FilterKeepsAll | backend/project_root/app/data_accessor/pandas/employee_certificate_handler.py:62-66 | a test every element passes returns the whole list unchanged |
| Seqs.First | backend/project_root/app/data_accessor/pandas/employee_certificate_handler.py:47-54 | `next(..., None)` gives None exactly when nothing matches, else the index of the first match |
| Seqs.Project | backend/project_root/app/data_accessor/pandas/employee_certificate_handler.py:160-162 | mapping a field keeps length and position |
| Text.LowerChar | backend/project_root/app/data_accessor/pandas/employee_certificate_handler.py:61 | upper-case ASCII letters move to lower case, every other character is kept |
| Text.Lower | backend/project_root/app/data_accessor/pandas/employee_certificate_handler.py:61 | `lower()` keeps the length and lowers each character |
| Text.ContainsBounds | backend/project_root/app/data_accessor/pandas/employee_certificate_handler.py:65 | the empty term occurs in every name; a term longer than the name never occurs |
| Frames.Loc | backend/project_root/app/data_accessor/pandas/employee_handler.py:16-19 | `df.loc[k]` on a frame with unique index keys is the row with key k, and None (the KeyError path) exactly when k is absent |
| Grouping.KeySetSnoc | backend/project_root/app/data_accessor/pandas/employee_certificate_handler.py:84-86 | appending a record adds its key to the set of keys seen |
| Grouping.WithKey | backend/project_root/app/data_accessor/pandas/employee_certificate_handler.py:102-106 | the records with one key, in order: a subsequence holding exactly the records whose key is k |
| Grouping.WithKeySnoc | backend/project_root/app/data_accessor/pandas/employee_certificate_handler.py:85-86 | appending a record extends exactly its own key's filter |
| Grouping.WithAbsentKey | backend/project_root/app/data_accessor/pandas/employee_certificate_handler.py:102-106 | a key that no record has selects the empty list |
| Grouping.CountBy | backend/project_root/app/data_accessor/pandas/employee_certificate_handler.py:72 | `Counter` has exactly the keys that occur, each counted at least once |
| Grouping.Grouped | backend/project_root/app/data_accessor/pandas/employee_certificate_handler.py:84-87 | the grouping has exactly the keys that occur, and each group is the order-preserving filter on its key |
| Grouping.GroupStep | backend/project_root/app/data_accessor/pandas/employee_certificate_handler.py:85-86 | one `groups[key].append(cert)` step keeps the grouping equal to the filter of the prefix read so far |
| Grouping.GroupedPrefixStep | backend/project_root/app/data_accessor/pandas/employee_certificate_handler.py:85-86 | the grouping of a prefix one record longer is the previous grouping with that record appended to its key's group |
| Grouping.GroupsAreClasses | backend/project_root/app/data_accessor/pandas/employee_certificate_handler.py:80-96 | no group is empty, each group is a subsequence of the input, and a record is in a group exactly when it has that group's key |
| Grouping.GroupBy | backend/project_root/app/data_accessor/pandas/employee_certificate_handler.py:84-87 | the `defaultdict(list)` loop builds exactly the grouping |
| Grouping.CountIsGroupSize | backend/project_root/app/data_accessor/pandas/employee_certificate_handler.py:68-96 | every key's count equals the length of its group |
| Grouping.CountIsFilterSize | backend/project_root/app/data_accessor/pandas/employee_certificate_handler.py:72 | every key's `Counter` value is the number of records with that key |
| Grouping.CountStep | backend/project_root/app/data_accessor/pandas/employee_certificate_handler.py:72 | one more record keeps every key's count equal to the size of its filter |
| Grouping.IndexBy | backend/project_root/app/data_processor/cert_tracker_service.py:17-18 | a dict comprehension keyed by id has exactly the ids that occur, and maps each to the last record with that id |
| Grouping.IndexByUnique | backend/project_root/app/data_processor/cert_tracker_service.py:17-18 | when ids are distinct, each record is found under its own id |
| Grouping.KeyOrder | backend/project_root/app/data_accessor/pandas/employee_certificate_handler.py:72 | the dict's keys without repeats, exactly the keys that occur, in first-occurrence order: wherever a record has the key at position j, every key at an earlier position has already occurred before that record |
| Grouping.SumOverAgree | backend/project_root/app/data_accessor/pandas/employee_certificate_handler.py:68-78 | a sum of counts over keys depends only on the counts of those keys |
| Grouping.SumOverBump | backend/project_root/app/data_accessor/pandas/employee_certificate_handler.py:68-78 | raising one listed key's count by one raises the sum by one |
| Grouping.CountsSumToLength | backend/project_root/app/data_accessor/pandas/employee_certificate_handler.py:68-78 | the counts add up to the number of records |
| Grouping.GroupSizesSumToLength | backend/project_root/app/data_accessor/pandas/employee_certificate_handler.py:80-96 | the group lengths add up to the number of records |
| Grouping.TotalLengthIsSum | backend/project_root/app/data_accessor/pandas/employee_certificate_handler.py:68-96 | adding up group lengths is adding up the counts that equal them |
| CertificateQueries.CertificateById | backend/project_root/app/data_accessor/pandas/employee_certificate_handler.py:36-54 | `get_by_id`/`get_certificate_by_id`: None exactly when no certificate has the id, else the first one in load order with that id |
| CertificateQueries.FindByCertificateName | backend/project_root/app/data_accessor/pandas/employee_certificate_handler.py:56-66 | the certificates, in load order, whose lowered name contains the lowered term, and no others; each match is kept as often as it occurs |
| CertificateQueries.SearchIgnoresTermCase | backend/project_root/app/data_accessor/pandas/employee_certificate_handler.py:61-66 | searching for a term and for its lower-case form gives the same list |
| CertificateQueries.EmptySearchMatchesAll | backend/project_root/app/data_accessor/pandas/employee_certificate_handler.py:61-66 | the empty term returns every certificate |
| CertificateQueries.ByEmployeeId | backend/project_root/app/data_accessor/pandas/employee_certificate_handler.py:98-106 | an order-preserving filter holding exactly the certificates with the id, each as often as it occurs; an unknown id gives [] |
| CertificateQueries.ByCourseId | backend/project_root/app/data_accessor/pandas/employee_certificate_handler.py:108-116 | the same for course ids, multiplicities included |
| CertificateQueries.ExpiringInRange | backend/project_root/app/data_accessor/pandas/employee_certificate_handler.py:118-128 | in load order, exactly the certificates with `start <= expiry <= end`, each as often as it occurs; an inverted range gives [] |
| CertificateQueries.ExpiringWithin | backend/project_root/app/data_accessor/pandas/employee_certificate_handler.py:130-138 | the range query on `[from, from + days]`, multiplicities included; negative days give [] |
| CertificateQueries.UpcomingExpirations | backend/project_root/app/data_accessor/pandas/employee_certificate_handler.py:140-147 | equal to `ExpiringWithin(days_ahead, today)`: exactly the certificates expiring in `[today, today + days_ahead]`, each as often as it occurs |
| CertificateQueries.CountCertificatesByEmployee | backend/project_root/app/data_accessor/pandas/employee_certificate_handler.py:68-72 | keys are exactly the employee ids present, each value is that employee's number of certificates (at least 1), and the values sum to the total |
| CertificateQueries.CountCertificatesByCourse | backend/project_root/app/data_accessor/pandas/employee_certificate_handler.py:74-78 | the same per course id |
| CertificateQueries.GroupCertificatesByEmployee | backend/project_root/app/data_accessor/pandas/employee_certificate_handler.py:80-87 | keys are exactly the employee ids present; each group is that employee's certificates in load order and is non-empty; the group lengths sum to the total |
| CertificateQueries.GroupCertificatesByCourse | backend/project_root/app/data_accessor/pandas/employee_certificate_handler.py:89-96 | the same per course id |
| CertificateQueries.CountsMatchGroups | backend/project_root/app/data_accessor/pandas/employee_certificate_handler.py:68-96 | for every key the count equals the length of that key's group, per employee and per course |
| CertificateQueries.CertificatesByEmployeeSummary | backend/project_root/app/data_accessor/pandas/employee_certificate_handler.py:156-163 | keys are exactly the employee ids present, each mapped to the names of that employee's certificates in load order |
| CertificateQueries.SummaryStep | backend/project_root/app/data_accessor/pandas/employee_certificate_handler.py:161-162 | one `summary[id].append(name)` step keeps the summary equal to the names of the prefix read so far |
| CertificateQueries.SummarySnoc | backend/project_root/app/data_accessor/pandas/employee_certificate_handler.py:161-162 | the same step for a record appended to any list of certificates |
| PandasEmployees.GetById | backend/project_root/app/data_accessor/pandas/employee_handler.py:15-21 | None exactly when the id is not an index key; otherwise the Employee built from that row with `employee_id` set to the argument |
| PandasEmployees.CompanyNameFromEmployeeName | backend/project_root/app/data_accessor/pandas/employee_handler.py:23-33 | None exactly when no lowered `first + " " + last` equals the lowered argument; otherwise the company of the first such row |
| PandasEmployees.NameMatchIgnoresCase | backend/project_root/app/data_accessor/pandas/employee_handler.py:24-29 | the lookup gives the same answer for a name and its lower-case form |
| PandasCompanies.GetById | backend/project_root/app/data_accessor/pandas/company_handler.py:15-23 | None exactly when the id is absent; otherwise the Company with that id and the row's name and email |
| PandasCompanies.CompanyFromCompanyName | backend/project_root/app/data_accessor/pandas/company_handler.py:25-33 | None exactly when no row's name equals the argument; otherwise the first such row, with its index key as company_id |
| PandasCompanies.NameThenIdRoundTrip | backend/project_root/app/data_accessor/pandas/company_handler.py:15-33 | looking up the id that a name lookup returned gives back the same company |
| PandasCourses.GetById | backend/project_root/app/data_accessor/pandas/course_handler.py:19-29 | None exactly when the id is absent; otherwise the Course with that id and the row's fields |
| PandasCourses.CourseNameFromCertificateName | backend/project_root/app/data_accessor/pandas/course_handler.py:31-38 | None exactly when no row has that certificate name; otherwise the course name of the first such row |
| CachedTables.CachedTable.Filled | backend/project_root/app/data_accessor/employee_certificate_handler.py:15-19 | the cache after one more `load_all`: the stored rows if the cache is filled (even when it holds no rows), otherwise what the file holds now |
| CachedTables.CachedTable.constructor | backend/project_root/app/data_accessor/employee_certificate_handler.py:11-13 | a new repository's `_cache` is None and the loader has not run |
| CachedTables.CachedTable.LoadAll | backend/project_root/app/data_accessor/employee_certificate_handler.py:15-19 | the first call stores and returns the file's rows; later calls return the stored rows and leave cache and load count unchanged; the loader runs at most once |
| CachedTables.LoadTwice | backend/project_root/app/data_accessor/employee_certificate_handler.py:15-19 | two calls on a fresh repository both return what the first read, even if the file changed in between |
| CsvCertificates.EmployeeCertificateHandler.constructor | backend/project_root/app/data_accessor/employee_certificate_handler.py:11-13 | the cache starts empty |
| CsvCertificates.EmployeeCertificateHandler.LoadAll | backend/project_root/app/data_accessor/employee_certificate_handler.py:15-19 | returns the cached rows, filling the cache only if it was empty |
| CsvCertificates.EmployeeCertificateHandler.GetEmployeeCertificatesByEmployeeId | backend/project_root/app/data_accessor/employee_certificate_handler.py:21-23 | the employee-id filter of the cached rows; the cache is filled at most once and never changed afterwards |
| CsvCertificates.EmployeeCertificateHandler.GetExpiredEmployeeCertificatesByDateRange | backend/project_root/app/data_accessor/employee_certificate_handler.py:25-30 | the inclusive range filter of the cached rows |
| CsvCertificates.EmployeeCertificateHandler.GetEmployeeCertificatesByCourseId | backend/project_root/app/data_accessor/employee_certificate_handler.py:32-34 | the course-id filter of the cached rows |
| CsvEmployees.EmployeeById | backend/project_root/app/data_accessor/employee_handler.py:21-23 | None exactly when no employee has the id, else the first one in load order, whose id is the argument |
| CsvEmployees.EmployeeNamed | backend/project_root/app/data_accessor/employee_handler.py:25-31 | the position of the first employee whose first and last names both equal the arguments exactly, or None if there is none |
| CsvEmployees.EmployeeCompanyName | backend/project_root/app/data_accessor/employee_handler.py:25-27 | None exactly when no exact name match exists, else the first match's company name |
| CsvEmployees.EmployeeEmail | backend/project_root/app/data_accessor/employee_handler.py:29-31 | None exactly when no exact name match exists, else the first match's email |
| CsvEmployees.CompanyAndEmailAgree | backend/project_root/app/data_accessor/employee_handler.py:25-31 | the company and the email lookups succeed together and answer from the same employee |
| CsvEmployees.EmployeeHandler.constructor | backend/project_root/app/data_accessor/employee_handler.py:11-13 | the cache starts empty |
| CsvEmployees.EmployeeHandler.LoadAll | backend/project_root/app/data_accessor/employee_handler.py:15-19 | returns the cached rows, filling the cache only if it was empty |
| CsvEmployees.EmployeeHandler.GetById | backend/project_root/app/data_accessor/employee_handler.py:21-23 | `EmployeeById` on the cached rows |
| CsvEmployees.EmployeeHandler.GetEmployeeCompanyName | backend/project_root/app/data_accessor/employee_handler.py:25-27 | `EmployeeCompanyName` on the cached rows |
| CsvEmployees.EmployeeHandler.GetEmployeeEmail | backend/project_root/app/data_accessor/employee_handler.py:29-31 | `EmployeeEmail` on the cached rows |
| DraftEmployees.EmployeeRepository.constructor | backend/app/data_accessor/employee_handler.py:5-9 | the cache starts empty |
| DraftEmployees.EmployeeRepository.LoadAll | backend/app/data_accessor/employee_handler.py:11-15 | returns the cached rows, filling the cache only if it was empty |
| DraftEmployees.EmployeeRepository.GetById | backend/app/data_accessor/employee_handler.py:17-19 | the first employee with the id in the cached rows, or None |
| TrackerService.CertTrackerService.constructor | backend/project_root/app/data_processor/cert_tracker_service.py:10-18 | stores the certificates as loaded; the course and employee maps are the id-indexed tables, so a repeated id keeps its last row |
| TrackerService.CertTrackerService.GetExpiringCertificates | backend/project_root/app/data_processor/cert_tracker_service.py:20-21 | a subsequence of the stored certificates holding exactly those with `start <= expiry_date <= end`, each as often as it occurs, no longer than the stored list; an inverted window gives [] |
| DraftService.CertificateService.constructor | backend/app/data_processor/cert_tracker_service.py:4-12 | the same construction as CertTrackerService |
| DraftService.CertificateService.GetExpiringCertificates | backend/app/data_processor/cert_tracker_service.py:14-18 | the same inclusive, order-preserving window, multiplicities included |
| Scenarios.BoundsAreInclusive | backend/project_root/tests/data_processor/test_cert_tracker_service.py:78-89 | `[today, today + 3]` keeps exactly the certificates expiring today and in three days |
| Scenarios.EmptyWindow | backend/project_root/tests/data_processor/test_cert_tracker_service.py:91-96 | a window holding no expiry date gives [] |
| Scenarios.WideWindow | backend/project_root/tests/data_processor/test_cert_tracker_service.py:98-105 | `[today - 2, today + 15]` keeps all four fixture certificates |
| Scenarios.AsbestosSearch | backend/project_root/tests/data_accessor/pandas/test_employee_certificate_handler.py:84-87 | "asbestos" finds the two Asbestos certificates and not the chainsaw one |

## Left out

- `count_expirations_by_company` (pandas certificate handler, lines 149-154) is not modelled. It reads `sponsoring_company`, a field that no certificate record has, so its behaviour is undefined.
- `date.today()` is a clock read. `CertificateQueries.UpcomingExpirations` takes `today` as a parameter instead.
- Reading files is left out:
  - the CSV reader and the pandas `read_csv`, `set_index` and `load_all` of the base handlers;
  - pydantic parsing and validation, including `EmailStr` and date parsing;
  - the conversion from `Timestamp` to `date`.
  
  Tables arrive as sequences of records, and a DataFrame as a sequence of (index key, row) pairs.
- CachedTables.CachedTable.LoadAll: the CSV loader is modelled by the parameter `file` (what the loader would return now). The CSV repositories' query methods take the same parameter. Two behaviours of the source are not captured:
  - Aliasing: `load_all` returns the `_cache` list object itself (`backend/project_root/app/data_accessor/employee_certificate_handler.py:19`, `backend/project_root/app/data_accessor/employee_handler.py:19`, `backend/app/data_accessor/employee_handler.py:15`). A caller that appends to or sorts the returned list changes what every later query reads. The model returns an immutable sequence, so its promise that a filled cache never changes holds only because this aliasing is not modelled.
  - Failing reads: when the CSV read raises, `_cache` stays None and the next call reads the file again. The model's loader cannot fail, so every first call fills the cache.
- Text.LowerChar: lowers the ASCII letters `A`-`Z` only. Python's `str.lower` lowers every cased letter.
- Text.Lower: lowers ASCII letters only. Python's `str.lower` also lowers non-ASCII letters, and can change a string's length.
- Frames.Loc: requires that no index key repeats. On a repeated key `df.loc` returns a frame, and the record constructors cannot take it. The same precondition applies to `PandasEmployees.GetById`, `PandasEmployees.CompanyNameFromEmployeeName`, `PandasCompanies.GetById` and `PandasCourses.GetById`.
- PandasEmployees.CompanyNameFromEmployeeName: on an employee frame with no rows, the source raises `AttributeError` where the model answers None. There, `apply(..., axis=1)` at `backend/project_root/app/data_accessor/pandas/employee_handler.py:24-26` returns an empty float Series, and `.str.lower()` refuses it. The model treats the empty frame like any frame in which no name matches.
- Dict key order: maps are unordered. The order in which the count and group dicts list their keys is given by `Grouping.KeyOrder`, and is used only to state the sums.
- CertificateQueries.CertificateById: compares ids as strings. The source applies `str()` to both sides, which is the identity on string ids.
- Field types:
  - `course_id` is a string throughout. The fixtures use "C001", although the project_root certificate model declares it `int`.
  - The course record holds `course_id`, `course_name` and `certificate_name`, the columns the course handler reads. The project_root course model is not part of this model.
- The earlier repositories (`backend/app`) are modelled on the project_root record types. Their own records differ:
  - the employee record (`backend/app/data_models/employee.py:4-10`) has `hire_date` and no `company_name`;
  - the certificate record (`backend/app/data_models/employee_certificate.py:4-9`) has no `certificate_id`;
  - the course record (`backend/app/data_models/course.py:4-9`) has `certificate_type`, `default_issue_date` and `default_expiry_date` instead of `certificate_name`.

  None of these fields is read by the earlier code.
- DraftEmployees and DraftService model what the earlier code evidently intends. As written it does not load:
  - `backend/app/data_accessor/employee_handler.py:1` subclasses `CsvHandler[Employee]` without importing either name, and uses `Path`, `Optional` and `List` without importing them, so importing the module raises `NameError`;
  - `backend/app/data_processor/cert_tracker_service.py:6-8,16` names the repository classes, `EmployeeCertificate` and `List` in its annotations without importing them, which fails the same way when the class is defined.
- TrackerService.CertTrackerService.constructor: receives the three `load_all()` results rather than the repositories themselves. The fields are constants, so no query can change them.
- Dates are unbounded integers. The range limits of Python's `date` and the `OverflowError` of `date + timedelta` are not modelled.
- The HTTP API, its dependency caching and the server start-up are not part of this model. This includes the API's own 400 response when `start > end`. The interface classes carry no logic and are not modelled either.
