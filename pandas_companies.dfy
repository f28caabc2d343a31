/** The DataFrame-backed CompanyHandler: the company table indexed by
    `company_id`, fixed at construction. */
module PandasCompanies {
  import opened Records
  import opened Seqs
  import opened Frames

  /** The columns of a company row other than the index. */
  datatype CompanyRow = CompanyRow(companyName: string, companyEmail: string)

  /** `get_by_id`: the company whose index key is `companyId`, or None. */
  function GetById(frame: seq<(int, CompanyRow)>, companyId: int): (r: Option<Company>)
    requires UniqueKeys(frame)
    ensures r.None? <==> forall i :: 0 <= i < |frame| ==> frame[i].0 != companyId
    ensures r.Some? ==> r.value.companyId == companyId
    ensures forall i :: 0 <= i < |frame| && frame[i].0 == companyId ==>
      r == Some(Company(companyId, frame[i].1.companyName, frame[i].1.companyEmail))
  {
    match Loc(frame, companyId)
    case None => None
    case Some(row) => Some(Company(companyId, row.companyName, row.companyEmail))
  }

  /** `get_company_from_company_name`: the first row, in row order, whose name
      equals the argument exactly, as a Company carrying that row's index key;
      None if no name matches. */
  function CompanyFromCompanyName(frame: seq<(int, CompanyRow)>, companyName: string): (r: Option<Company>)
    ensures r.None? <==> forall i :: 0 <= i < |frame| ==> frame[i].1.companyName != companyName
    ensures r.Some? ==> r.value.companyName == companyName
    ensures r.Some? ==> exists i :: 0 <= i < |frame| && frame[i].1.companyName == companyName
                           && r.value == Company(frame[i].0, companyName, frame[i].1.companyEmail)
                           && forall j :: 0 <= j < i ==> frame[j].1.companyName != companyName
  {
    match First(frame, (row: (int, CompanyRow)) => row.1.companyName == companyName)
    case None => None
    case Some(i) => Some(Company(frame[i].0, frame[i].1.companyName, frame[i].1.companyEmail))
  }

  /** Looking a company up by name and then by the id it came back with gives
      the same company again. */
  lemma NameThenIdRoundTrip(frame: seq<(int, CompanyRow)>, companyName: string)
    requires UniqueKeys(frame)
    requires CompanyFromCompanyName(frame, companyName).Some?
    ensures GetById(frame, CompanyFromCompanyName(frame, companyName).value.companyId)
            == CompanyFromCompanyName(frame, companyName)
  {
  }
}
