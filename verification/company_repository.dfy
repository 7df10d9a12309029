/**
 The company repository: an ordered list of companies with id generation,
 lookup by id, 1-based pagination, insertion, rename-only update and
 deletion by id. The list is passed in and handed back instead of living
 in a static field.
 */
module CompanyRepository {
  import opened Outcomes
  import opened Sequences
  import Ids
  import opened CompanyModel

  type Store = seq<Company>

  /** The store after `cleanAll`. */
  const Empty: Store := []

  /** The five companies the repository starts with. */
  const Seed: Store := [
    Make(Some(1), "Orient Overseas Container Line"),
    Make(Some(2), "COSCO Shipping Lines"),
    Make(Some(3), "Thoughtworks"),
    Make(Some(4), "Microsoft"),
    Make(Some(5), "Apple")
  ]

  /** Every stored company carries an id (the id stream cannot unbox a missing one). */
  ghost predicate Identified(store: Store) {
    forall i :: 0 <= i < |store| ==> store[i].id.Some?
  }

  /** No two stored companies share an id. */
  ghost predicate UniqueIds(store: Store) {
    forall i, j :: 0 <= i < j < |store| ==> store[i].id != store[j].id
  }

  ghost predicate Valid(store: Store) {
    Identified(store) && UniqueIds(store)
  }

  /** The stored ids, in store order. */
  function IdList(store: Store): (ids: seq<int>)
    requires Identified(store)
    ensures |ids| == |store|
    ensures forall i :: 0 <= i < |store| ==> ids[i] == store[i].id.value
  {
    if |store| == 0 then [] else [store[0].id.value] + IdList(store[1..])
  }

  /** The largest stored id plus one, or one for an empty store. */
  function NextCompanyId(store: Store): (r: int)
    requires Identified(store)
    ensures forall i :: 0 <= i < |store| ==> store[i].id.value < r
    ensures |store| == 0 ==> r == 1
    ensures |store| > 0 ==> exists i :: 0 <= i < |store| && store[i].id == Some(r - 1)
  {
    var ids := IdList(store);
    var r := Ids.Next(ids);
    assert |store| > 0 ==> exists i :: 0 <= i < |ids| && ids[i] == r - 1;
    r
  }

  /** Every stored company, in order. */
  function GetAllCompanies(store: Store): (r: seq<Company>)
    ensures |r| == |store| && forall i :: 0 <= i < |r| ==> r[i] == store[i]
  {
    store
  }

  /** The position of the first company with the given id. */
  function IndexOfId(store: Store, id: int): (r: Option<nat>)
    ensures r.None? <==> forall i :: 0 <= i < |store| ==> store[i].id != Some(id)
    ensures r.Some? ==> r.value < |store| && store[r.value].id == Some(id)
    ensures r.Some? ==> forall j :: 0 <= j < r.value ==> store[j].id != Some(id)
  {
    FirstIndex(store, (c: Company) => c.id == Some(id))
  }

  /** Two stores whose records carry the same ids position by position locate an id alike. */
  lemma SameIdsSameIndex(s: Store, s': Store, id: int)
    requires |s| == |s'|
    requires forall i :: 0 <= i < |s| ==> s[i].id == s'[i].id
    ensures IndexOfId(s, id) == IndexOfId(s', id)
  {
  }

  /** The first company with the given id, or CompanyNotFound. */
  function FindCompanyById(store: Store, id: int): (r: Result<Company>)
    ensures r.Failure? <==> forall i :: 0 <= i < |store| ==> store[i].id != Some(id)
    ensures r.Failure? ==> r.error == CompanyNotFound
    ensures r.Success? ==>
              exists k :: 0 <= k < |store| && store[k] == r.value && r.value.id == Some(id)
                          && forall j :: 0 <= j < k ==> store[j].id != Some(id)
  {
    match IndexOfId(store, id)
    case None => Failure(CompanyNotFound)
    case Some(k) => Success(store[k])
  }

  /** Page `pageNumber` (from 1) of `pageSize` companies. */
  function ListCompaniesByPage(store: Store, pageNumber: int, pageSize: int): (r: Result<seq<Company>>)
    ensures r.Failure? <==> pageSize < 0 || (pageNumber - 1) * pageSize < 0
    ensures r.Failure? ==> r.error == IllegalArgument
    ensures r.Success? ==>
              var offset := (pageNumber - 1) * pageSize;
              && |r.value| == (if offset >= |store| then 0 else Min(pageSize, |store| - offset))
              && forall k :: 0 <= k < |r.value| ==> r.value[k] == store[offset + k]
  {
    Page(store, pageNumber, pageSize)
  }

  /** Appends a new company with a fresh id and the given name, and returns it. Only the name
      is taken from the argument: the new record is built with the two-argument constructor. */
  function AddCompany(store: Store, company: Company): (r: (Store, Company))
    requires Identified(store)
    ensures r.0 == store + [r.1]
    ensures r.1.id == Some(NextCompanyId(store))
    ensures forall i :: 0 <= i < |store| ==> store[i].id.value < r.1.id.value
    ensures r.1.name == company.name && !r.1.active
  {
    var created := Make(Some(NextCompanyId(store)), company.name);
    (store + [created], created)
  }

  /** Renames the first company with the given id and returns it; nothing else changes. */
  function UpdateCompany(store: Store, id: int, info: Company): (r: (Store, Result<Company>))
    ensures IndexOfId(store, id).None? ==> r == (store, Failure(CompanyNotFound))
    ensures IndexOfId(store, id).Some? ==>
              var k := IndexOfId(store, id).value;
              && |r.0| == |store|
              && r.1 == Success(r.0[k])
              && r.0[k].name == info.name
              && r.0[k].id == store[k].id && r.0[k].active == store[k].active
              && forall j :: 0 <= j < |store| && j != k ==> r.0[j] == store[j]
  {
    match IndexOfId(store, id)
    case None => (store, Failure(CompanyNotFound))
    case Some(k) =>
      var renamed := SetName(store[k], info.name);
      (store[k := renamed], Success(renamed))
  }

  /** Removes the first company with the given id; the others keep their order. */
  function DeleteCompany(store: Store, id: int): (r: (Store, Result<()>))
    ensures IndexOfId(store, id).None? ==> r == (store, Failure(CompanyNotFound))
    ensures IndexOfId(store, id).Some? ==>
              var k := IndexOfId(store, id).value;
              && r.1.Success?
              && |r.0| == |store| - 1
              && (forall j :: 0 <= j < k ==> r.0[j] == store[j])
              && (forall j :: k <= j < |r.0| ==> r.0[j] == store[j + 1])
  {
    match IndexOfId(store, id)
    case None => (store, Failure(CompanyNotFound))
    case Some(k) => (RemoveAt(store, k), Success(()))
  }

  /** A fresh id is larger than every stored one, so insertion keeps ids set and unique. */
  lemma AddKeepsValid(store: Store, company: Company)
    requires Valid(store)
    ensures Valid(AddCompany(store, company).0)
  {
    var (s', n) := AddCompany(store, company);
    forall i, j | 0 <= i < j < |s'|
      ensures s'[i].id != s'[j].id
    {
      if j == |store| {
        assert s'[i].id.value < n.id.value;
      }
    }
  }

  /** The company just added is what a lookup of its id finds. */
  lemma AddThenFind(store: Store, company: Company)
    requires Identified(store)
    ensures var (s', n) := AddCompany(store, company);
            FindCompanyById(s', n.id.value) == Success(n)
  {
    var (s', n) := AddCompany(store, company);
    forall j | 0 <= j < |store|
      ensures s'[j].id != n.id
    {
      assert s'[j] == store[j];
    }
    assert s'[|store|] == n;
  }

  /** After the store is cleared, the first company added gets id 1. */
  lemma ClearThenAddGetsIdOne(company: Company)
    ensures AddCompany(Empty, company).1.id == Some(1)
  {
  }

  /** Ids are not remembered once deleted: in a store numbered 1 .. n, as the seed store is,
      deleting company n and adding another company hands out id n again. */
  lemma DeleteLastReusesId(store: Store, company: Company)
    requires |store| > 0 && forall i :: 0 <= i < |store| ==> store[i].id == Some(i + 1)
    ensures var (s', res) := DeleteCompany(store, |store|);
            && res.Success?
            && AddCompany(s', company).1.id == Some(|store|)
  {
    var n := |store|;
    assert store[n - 1].id == Some(n);
    assert IndexOfId(store, n) == Some(n - 1);
    var s' := DeleteCompany(store, n).0;
    assert forall i :: 0 <= i < n - 1 ==> s'[i] == store[i];
    if n > 1 {
      var m := NextCompanyId(s');
      var i :| 0 <= i < |s'| && s'[i].id == Some(m - 1);
      assert s'[n - 2].id == Some(n - 1);
    }
  }

  /** Renaming leaves ids alone, so they stay set and unique. */
  lemma UpdateKeepsValid(store: Store, id: int, info: Company)
    requires Valid(store)
    ensures Valid(UpdateCompany(store, id, info).0)
  {
  }

  /** Deleting one company keeps ids set and unique. */
  lemma DeleteKeepsValid(store: Store, id: int)
    requires Valid(store)
    ensures Valid(DeleteCompany(store, id).0)
  {
    match IndexOfId(store, id)
    case None =>
    case Some(k) =>
      var s' := DeleteCompany(store, id).0;
      forall i | 0 <= i < |s'|
        ensures s'[i].id.Some?
      {
        assert s'[i] == store[if i < k then i else i + 1];
      }
      forall i, j | 0 <= i < j < |s'|
        ensures s'[i].id != s'[j].id
      {
        var i0 := if i < k then i else i + 1;
        var j0 := if j < k then j else j + 1;
        assert s'[i] == store[i0] && s'[j] == store[j0] && i0 < j0;
      }
  }

  /** With unique ids, a deleted company can no longer be found. */
  lemma DeleteThenNotFound(store: Store, id: int)
    requires UniqueIds(store)
    ensures FindCompanyById(DeleteCompany(store, id).0, id) == Failure(CompanyNotFound)
  {
    match IndexOfId(store, id)
    case None =>
    case Some(k) =>
      var s' := DeleteCompany(store, id).0;
      forall i | 0 <= i < |s'|
        ensures s'[i].id != Some(id)
      {
        var i0 := if i < k then i else i + 1;
        assert s'[i] == store[i0] && i0 != k;
        if i0 < k {
          assert store[i0].id != store[k].id;
        } else {
          assert store[k].id != store[i0].id;
        }
      }
  }

  /** The seed store is valid and hands out id 6 next. */
  lemma SeedIsValid()
    ensures Valid(Seed)
    ensures NextCompanyId(Seed) == 6
  {
  }
}
