/**
 The business rules on companies: reads and pages pass through to the
 company repository, creation and renaming delegate to it, the employees of
 a company come from the employee repository, and deletion is soft.

 The read operations take a store and hand back only a result, so they
 leave every store as it was.
 */
module CompanyService {
  import opened Outcomes
  import opened Sequences
  import opened CompanyModel
  import EmployeeModel
  import CompanyRepository
  import EmployeeRepository

  type Companies = CompanyRepository.Store
  type Employees = EmployeeRepository.Store

  /** Every stored company, in order. */
  function GetAll(companies: Companies): (r: seq<Company>)
    ensures |r| == |companies| && forall i :: 0 <= i < |r| ==> r[i] == companies[i]
  {
    CompanyRepository.GetAllCompanies(companies)
  }

  /** The first company with the given id, or CompanyNotFound. */
  function FindById(companies: Companies, id: int): (r: Result<Company>)
    ensures r.Failure? <==> forall i :: 0 <= i < |companies| ==> companies[i].id != Some(id)
    ensures r.Failure? ==> r.error == CompanyNotFound
    ensures r.Success? ==>
              exists k :: 0 <= k < |companies| && companies[k] == r.value && r.value.id == Some(id)
                          && forall j :: 0 <= j < k ==> companies[j].id != Some(id)
  {
    CompanyRepository.FindCompanyById(companies, id)
  }

  /** Stores a new company with a fresh id and the given name, and returns it. */
  function Create(companies: Companies, company: Company): (r: (Companies, Company))
    requires CompanyRepository.Identified(companies)
    ensures r.0 == companies + [r.1]
    ensures r.1.id.Some? && forall i :: 0 <= i < |companies| ==> companies[i].id.value < r.1.id.value
    ensures r.1.name == company.name
  {
    CompanyRepository.AddCompany(companies, company)
  }

  /** The employees whose company is the given id, in store order. */
  function FindEmployeesByCompanyId(employees: Employees, id: int): (r: seq<EmployeeModel.Employee>)
    ensures forall i :: 0 <= i < |r| ==> r[i].companyId == Some(id)
    ensures forall i :: 0 <= i < |employees| && employees[i].companyId == Some(id) ==> employees[i] in r
    ensures Subsequence(r, employees)
  {
    EmployeeRepository.FindByCompanyId(employees, id)
  }

  /** Marks the company with the given id inactive and keeps its name. The repository's update
      copies only the name; the flag is cleared on the stored record itself, which is the object
      the lookup handed out. */
  function Delete(companies: Companies, id: int): (r: (Companies, Result<()>))
    ensures CompanyRepository.IndexOfId(companies, id).None? ==>
              r == (companies, Failure(CompanyNotFound))
    ensures CompanyRepository.IndexOfId(companies, id).Some? ==>
              var k := CompanyRepository.IndexOfId(companies, id).value;
              && r.1.Success?
              && |r.0| == |companies|
              && !r.0[k].active && r.0[k].name == companies[k].name && r.0[k].id == companies[k].id
              && forall j :: 0 <= j < |companies| && j != k ==> r.0[j] == companies[j]
  {
    match CompanyRepository.IndexOfId(companies, id)
    case None => (companies, Failure(CompanyNotFound))
    case Some(k) =>
      var matched := companies[k].(active := false);
      var (s', _) := CompanyRepository.UpdateCompany(companies[k := matched], id, matched);
      (s', Success(()))
  }

  /** Renames the company with the given id and returns it. */
  function Update(companies: Companies, id: int, info: Company): (r: (Companies, Result<Company>))
    ensures r.1.Failure? <==> forall i :: 0 <= i < |companies| ==> companies[i].id != Some(id)
    ensures r.1.Failure? ==> r.0 == companies && r.1.error == CompanyNotFound
    ensures r.1.Success? ==>
              && r.1.value.name == info.name && r.1.value.id == Some(id)
              && r.1.value in r.0 && |r.0| == |companies|
    ensures CompanyRepository.IndexOfId(companies, id).Some? ==>
              var k := CompanyRepository.IndexOfId(companies, id).value;
              && r.1 == Success(r.0[k])
              && r.0[k].active == companies[k].active
              && forall j :: 0 <= j < |companies| && j != k ==> r.0[j] == companies[j]
  {
    CompanyRepository.UpdateCompany(companies, id, info)
  }

  /** Page `pageNumber` (from 1) of `pageSize` companies. */
  function GetCompaniesByPage(companies: Companies, pageNumber: int, pageSize: int)
    : (r: Result<seq<Company>>)
    ensures r.Failure? <==> pageSize < 0 || (pageNumber - 1) * pageSize < 0
    ensures r.Failure? ==> r.error == IllegalArgument
    ensures r.Success? ==>
              var offset := (pageNumber - 1) * pageSize;
              && |r.value| == (if offset >= |companies| then 0 else Min(pageSize, |companies| - offset))
              && forall k :: 0 <= k < |r.value| ==> r.value[k] == companies[offset + k]
  {
    CompanyRepository.ListCompaniesByPage(companies, pageNumber, pageSize)
  }

  /** Soft deletion keeps every stored company id set and distinct. */
  lemma DeleteKeepsValid(companies: Companies, id: int)
    requires CompanyRepository.Valid(companies)
    ensures CompanyRepository.Valid(Delete(companies, id).0)
  {
  }

  /** After a soft delete the company is still found, now inactive and with its name. */
  lemma DeleteThenFindInactive(companies: Companies, k: int)
    requires CompanyRepository.UniqueIds(companies) && 0 <= k < |companies| && companies[k].id.Some?
    ensures var id := companies[k].id.value;
            var f := FindById(Delete(companies, id).0, id);
            && f.Success? && !f.value.active && f.value.name == companies[k].name
  {
    var id := companies[k].id.value;
    assert CompanyRepository.IndexOfId(companies, id) == Some(k);
    var s' := Delete(companies, id).0;
    CompanyRepository.SameIdsSameIndex(companies, s', id);
  }

  /** A renamed company is what a later lookup of its id finds, under its new name. */
  lemma UpdateThenFind(companies: Companies, id: int, info: Company)
    requires CompanyRepository.IndexOfId(companies, id).Some?
    ensures var (s', u) := Update(companies, id, info);
            && u.Success?
            && FindById(s', id) == u
            && FindById(s', id).value.name == info.name
  {
    var s' := Update(companies, id, info).0;
    CompanyRepository.SameIdsSameIndex(companies, s', id);
  }

  /** A company's employees are exactly those carrying its id: of Alice at company 1 and Bob at
      company 99, only Alice is listed under company 1. */
  lemma EmployeesOfOtherCompanyExcluded()
    ensures var alice := EmployeeModel.Make(Some(1), "Alice", 24, "Female", 9000, Some(1));
            var bob := EmployeeModel.Make(Some(2), "Bob", 28, "Male", 8000, Some(99));
            FindEmployeesByCompanyId([alice, bob], 1) == [alice]
  {
    var alice := EmployeeModel.Make(Some(1), "Alice", 24, "Female", 9000, Some(1));
    var bob := EmployeeModel.Make(Some(2), "Bob", 28, "Male", 8000, Some(99));
    var p := (x: EmployeeModel.Employee) => x.companyId == Some(1);
    FilterCons(bob, [], p);
    assert [bob] == [bob] + [];
    FilterCons(alice, [bob], p);
    assert [alice, bob] == [alice] + [bob];
  }
}
