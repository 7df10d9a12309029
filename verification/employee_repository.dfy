/**
 The employee repository: an ordered list of employees with id generation,
 lookup by id, filtering by gender or company, 1-based pagination,
 insertion, overwrite and removal. The list is passed in and handed back
 instead of living in a static field.
 */
module EmployeeRepository {
  import opened Outcomes
  import opened Sequences
  import Ids
  import opened EmployeeModel

  type Store = seq<Employee>

  /** The store after `cleanAll`. */
  const Empty: Store := []

  /** The five employees the repository starts with. */
  const Seed: Store := [
    MakeWithoutCompany(Some(1), "Alice", 30, "Female", 5000),
    MakeWithoutCompany(Some(2), "Bob", 31, "Male", 5000),
    MakeWithoutCompany(Some(3), "Carl", 32, "Male", 5000),
    MakeWithoutCompany(Some(4), "David", 33, "Male", 5000),
    MakeWithoutCompany(Some(5), "Ellen", 34, "Female", 5000)
  ]

  /** Every stored employee carries an id (the id stream cannot unbox a missing one). */
  ghost predicate Identified(store: Store) {
    forall i :: 0 <= i < |store| ==> store[i].id.Some?
  }

  /** No two stored employees share an id. */
  ghost predicate UniqueIds(store: Store) {
    forall i, j :: 0 <= i < j < |store| ==> store[i].id != store[j].id
  }

  ghost predicate Valid(store: Store) {
    Identified(store) && UniqueIds(store)
  }

  /** The stored ids, in store order. */
  function IdList(store: Store): (ids: seq<int>)
    requires Identified(store)
    ensures |ids| == |store|
    ensures forall i :: 0 <= i < |store| ==> ids[i] == store[i].id.value
  {
    if |store| == 0 then [] else [store[0].id.value] + IdList(store[1..])
  }

  /** The largest stored id plus one, or one for an empty store. */
  function NextId(store: Store): (r: int)
    requires Identified(store)
    ensures forall i :: 0 <= i < |store| ==> store[i].id.value < r
    ensures |store| == 0 ==> r == 1
    ensures |store| > 0 ==> exists i :: 0 <= i < |store| && store[i].id == Some(r - 1)
  {
    var ids := IdList(store);
    var r := Ids.Next(ids);
    assert |store| > 0 ==> exists i :: 0 <= i < |ids| && ids[i] == r - 1;
    r
  }

  /** Every stored employee, in order. */
  function ListAll(store: Store): (r: seq<Employee>)
    ensures |r| == |store| && forall i :: 0 <= i < |r| ==> r[i] == store[i]
  {
    store
  }

  /** The position of the first employee with the given id. */
  function IndexOfId(store: Store, id: int): (r: Option<nat>)
    ensures r.None? <==> forall i :: 0 <= i < |store| ==> store[i].id != Some(id)
    ensures r.Some? ==> r.value < |store| && store[r.value].id == Some(id)
    ensures r.Some? ==> forall j :: 0 <= j < r.value ==> store[j].id != Some(id)
  {
    FirstIndex(store, (e: Employee) => e.id == Some(id))
  }

  /** Two stores whose records carry the same ids position by position locate an id alike. */
  lemma SameIdsSameIndex(s: Store, s': Store, id: int)
    requires |s| == |s'|
    requires forall i :: 0 <= i < |s| ==> s[i].id == s'[i].id
    ensures IndexOfId(s, id) == IndexOfId(s', id)
  {
  }

  /** The first employee with the given id, or EmployeeNotFound. */
  function FindById(store: Store, id: int): (r: Result<Employee>)
    ensures r.Failure? <==> forall i :: 0 <= i < |store| ==> store[i].id != Some(id)
    ensures r.Failure? ==> r.error == EmployeeNotFound
    ensures r.Success? ==>
              exists k :: 0 <= k < |store| && store[k] == r.value && r.value.id == Some(id)
                          && forall j :: 0 <= j < k ==> store[j].id != Some(id)
  {
    match IndexOfId(store, id)
    case None => Failure(EmployeeNotFound)
    case Some(k) => Success(store[k])
  }

  /** With unique ids, the lookup returns the one employee carrying the id. */
  lemma FindByIdUnique(store: Store, k: int)
    requires UniqueIds(store) && 0 <= k < |store| && store[k].id.Some?
    ensures FindById(store, store[k].id.value) == Success(store[k])
  {
    var id := store[k].id.value;
    forall j | 0 <= j < |store| && j != k
      ensures store[j].id != Some(id)
    {
    }
    assert IndexOfId(store, id) == Some(k);
  }

  /** The employees of the given gender, in store order. */
  function FindByGender(store: Store, gender: string): (r: seq<Employee>)
    ensures forall i :: 0 <= i < |r| ==> r[i].gender == gender
    ensures forall i :: 0 <= i < |store| && store[i].gender == gender ==> store[i] in r
    ensures Subsequence(r, store)
  {
    Filter(store, (e: Employee) => e.gender == gender)
  }

  /** Filtering by gender looks at the head, then at the rest. */
  lemma FindByGenderCons(x: Employee, store: Store, gender: string)
    ensures FindByGender([x] + store, gender)
            == (if x.gender == gender then [x] else []) + FindByGender(store, gender)
  {
    FilterCons(x, store, (e: Employee) => e.gender == gender);
  }

  /** The employees of the given company, in store order. */
  function FindByCompanyId(store: Store, companyId: int): (r: seq<Employee>)
    ensures forall i :: 0 <= i < |r| ==> r[i].companyId == Some(companyId)
    ensures forall i :: 0 <= i < |store| && store[i].companyId == Some(companyId) ==> store[i] in r
    ensures Subsequence(r, store)
  {
    Filter(store, (e: Employee) => e.companyId == Some(companyId))
  }

  /** Page `pageNumber` (from 1) of `pageSize` employees. */
  function ListByPage(store: Store, pageNumber: int, pageSize: int): (r: Result<seq<Employee>>)
    ensures r.Failure? <==> pageSize < 0 || (pageNumber - 1) * pageSize < 0
    ensures r.Failure? ==> r.error == IllegalArgument
    ensures r.Success? ==>
              var offset := (pageNumber - 1) * pageSize;
              && |r.value| == (if offset >= |store| then 0 else Min(pageSize, |store| - offset))
              && forall k :: 0 <= k < |r.value| ==> r.value[k] == store[offset + k]
  {
    Page(store, pageNumber, pageSize)
  }

  /** Appends a copy of `e` under a fresh id and returns the stored record. */
  function AddEmployee(store: Store, e: Employee): (r: (Store, Employee))
    requires Identified(store)
    ensures r.0 == store + [r.1]
    ensures r.1.id == Some(NextId(store))
    ensures forall i :: 0 <= i < |store| ==> store[i].id.value < r.1.id.value
    ensures r.1.name == e.name && r.1.age == e.age && r.1.gender == e.gender
    ensures r.1.salary == e.salary && r.1.companyId == e.companyId && r.1.active == e.active
  {
    var stored := e.(id := Some(NextId(store)));
    (store + [stored], stored)
  }

  /** The insertion as the repository writes it: the copy is rebuilt with the five-argument
      constructor, so the caller's company and active flag are not carried over. */
  function AddEmployeeAsWritten(store: Store, e: Employee): (r: Store)
    requires Identified(store)
    ensures |r| == |store| + 1 && r[..|store|] == store
    ensures r[|store|].id == Some(NextId(store))
    ensures r[|store|].name == e.name && r[|store|].age == e.age
    ensures r[|store|].gender == e.gender && r[|store|].salary == e.salary
    ensures r[|store|].companyId.None? && !r[|store|].active
  {
    store + [MakeWithoutCompany(Some(NextId(store)), e.name, e.age, e.gender, e.salary)]
  }

  /** Overwrites the first employee with the given id by `e`, keeping the stored id. */
  function UpdateEmployee(store: Store, id: int, e: Employee): (r: (Store, Result<Employee>))
    ensures IndexOfId(store, id).None? ==> r == (store, Failure(EmployeeNotFound))
    ensures IndexOfId(store, id).Some? ==>
              var k := IndexOfId(store, id).value;
              && |r.0| == |store|
              && r.1 == Success(r.0[k])
              && r.0[k].id == Some(id) && r.0[k].(id := e.id) == e
              && forall j :: 0 <= j < |store| && j != k ==> r.0[j] == store[j]
  {
    match IndexOfId(store, id)
    case None => (store, Failure(EmployeeNotFound))
    case Some(k) =>
      var stored := e.(id := Some(id));
      (store[k := stored], Success(stored))
  }

  /** Removes the first occurrence of `e`, if any, and hands `e` back. */
  function RemoveEmployee(store: Store, e: Employee): (r: (Store, Employee))
    ensures r.1 == e
    ensures e !in store ==> r.0 == store
    ensures e in store ==> multiset(r.0) == multiset(store) - multiset{e}
    ensures e in store ==>
              exists k :: 0 <= k < |store| && store[k] == e
                          && (forall j :: 0 <= j < k ==> store[j] != e)
                          && r.0 == RemoveAt(store, k)
  {
    match FirstIndex(store, (x: Employee) => x == e)
    case None => (store, e)
    case Some(k) => (RemoveAt(store, k), e)
  }

  /** A fresh id is larger than every stored one, so insertion keeps ids set and unique. */
  lemma AddKeepsValid(store: Store, e: Employee)
    requires Valid(store)
    ensures Valid(AddEmployee(store, e).0)
  {
    var (s', n) := AddEmployee(store, e);
    forall i, j | 0 <= i < j < |s'|
      ensures s'[i].id != s'[j].id
    {
      if j == |store| {
        assert s'[i].id.value < n.id.value;
      }
    }
  }

  /** The record just added is what a lookup of its id finds. */
  lemma AddThenFind(store: Store, e: Employee)
    requires Identified(store)
    ensures var (s', n) := AddEmployee(store, e);
            FindById(s', n.id.value) == Success(n)
  {
    var (s', n) := AddEmployee(store, e);
    forall j | 0 <= j < |store|
      ensures s'[j].id != n.id
    {
      assert s'[j] == store[j];
    }
    assert s'[|store|] == n;
  }

  /** The record just added is listed under its company exactly when it carries that company,
      after the employees already listed there. */
  lemma AddThenFindByCompany(store: Store, e: Employee, companyId: int)
    requires Identified(store)
    ensures var (s', n) := AddEmployee(store, e);
            FindByCompanyId(s', companyId)
            == FindByCompanyId(store, companyId) + (if e.companyId == Some(companyId) then [n] else [])
  {
    var (s', n) := AddEmployee(store, e);
    var p := (x: Employee) => x.companyId == Some(companyId);
    FilterAppend(store, [n], p);
    assert Filter([n], p) == (if p(n) then [n] else []) by {
      assert [n][1..] == [];
    }
  }

  /** Overwriting keeps the stored id, so ids stay set and unique. */
  lemma UpdateKeepsValid(store: Store, id: int, e: Employee)
    requires Valid(store)
    ensures Valid(UpdateEmployee(store, id, e).0)
  {
  }

  /** Removing one occurrence keeps ids set and unique. */
  lemma RemoveKeepsValid(store: Store, e: Employee)
    requires Valid(store)
    ensures Valid(RemoveEmployee(store, e).0)
  {
    match FirstIndex(store, (x: Employee) => x == e)
    case None =>
    case Some(k) =>
      var s' := RemoveAt(store, k);
      assert RemoveEmployee(store, e).0 == s';
      forall i | 0 <= i < |s'|
        ensures s'[i].id.Some?
      {
        assert s'[i] == store[if i < k then i else i + 1];
      }
      forall i, j | 0 <= i < j < |s'|
        ensures s'[i].id != s'[j].id
      {
        var i0 := if i < k then i else i + 1;
        var j0 := if j < k then j else j + 1;
        assert s'[i] == store[i0] && s'[j] == store[j0] && i0 < j0;
      }
  }

  /** The seed store is valid and hands out id 6 next. */
  lemma SeedIsValid()
    ensures Valid(Seed)
    ensures NextId(Seed) == 6
  {
  }

  /** From the seed store, the female employees are Alice and Ellen, in that order. */
  lemma SeedFemales()
    ensures FindByGender(Seed, "Female") == [Seed[0], Seed[4]]
  {
    FiveByGender(Seed[0], Seed[1], Seed[2], Seed[3], Seed[4]);
    assert Seed == [Seed[0], Seed[1], Seed[2], Seed[3], Seed[4]];
  }

  /** Of five employees where only the first and last are female, the filter keeps those two. */
  lemma FiveByGender(a: Employee, b: Employee, c: Employee, d: Employee, e: Employee)
    requires a.gender == "Female" && e.gender == "Female"
    requires b.gender != "Female" && c.gender != "Female" && d.gender != "Female"
    ensures FindByGender([a, b, c, d, e], "Female") == [a, e]
  {
    var g := "Female";
    var tail := [b, c, d, e];
    assert FindByGender([e], g) == [e] by {
      FindByGenderCons(e, [], g);
      assert [e] == [e] + [];
    }
    assert FindByGender([d, e], g) == [e] by {
      FindByGenderCons(d, [e], g);
    }
    assert FindByGender([c, d, e], g) == [e] by {
      FindByGenderCons(c, [d, e], g);
    }
    assert FindByGender(tail, g) == [e] by {
      FindByGenderCons(b, [c, d, e], g);
    }
    assert [a, b, c, d, e] == [a] + tail;
    FindByGenderCons(a, tail, g);
  }

  /** From {Alice/Female, Bob/Male}, filtering on "Female" yields exactly [Alice]. */
  lemma AliceAndBobByGender()
    ensures var alice := Draft("Alice", 24, "Female", 9000);
            var bob := Draft("Bob", 28, "Male", 8000);
            FindByGender([alice, bob], "Female") == [alice]
  {
    var alice := Draft("Alice", 24, "Female", 9000);
    var bob := Draft("Bob", 28, "Male", 8000);
    FindByGenderCons(bob, [], "Female");
    assert [bob] == [bob] + [];
    FindByGenderCons(alice, [bob], "Female");
    assert [alice, bob] == [alice] + [bob];
  }

  /** Page 2 of size 1 over the five seed employees is exactly the second one. */
  lemma SeedSecondPage()
    ensures ListByPage(Seed, 2, 1) == Success([Seed[1]])
  {
    assert Seed[1..2] == [Seed[1]];
  }

  /** The repository as written drops the company of a new employee, so a company lookup right
      after the insertion misses it; the corrected insertion finds it. */
  lemma AddEmployeeAsWrittenLosesCompany()
    ensures var alice := DraftForCompany("Alice", 24, "Female", 9000, Some(1));
            && FindByCompanyId(AddEmployeeAsWritten(Empty, alice), 1) == []
            && FindByCompanyId(AddEmployee(Empty, alice).0, 1) == [AddEmployee(Empty, alice).1]
  {
    var alice := DraftForCompany("Alice", 24, "Female", 9000, Some(1));
    var w := AddEmployeeAsWritten(Empty, alice);
    assert FindByCompanyId(w, 1) == [] by {
      FilterCons(w[0], [], (x: Employee) => x.companyId == Some(1));
      assert w == [w[0]] + [];
    }
    AddThenFindByCompany(Empty, alice, 1);
  }
}
