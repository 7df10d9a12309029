/**
 The business rules on employees: creation is gated on age and activates the
 record, deletion is soft (it clears the active flag), and an update is
 refused for an inactive employee and otherwise changes age and salary only.
 */
module EmployeeService {
  import opened Outcomes
  import opened EmployeeModel
  import opened EmployeeRepository

  /** Stores `e` as an active employee under a fresh id, unless its age is outside 18..65. */
  function Create(store: Store, e: Employee): (r: (Store, Result<Employee>))
    requires !HasInvalidAge(e) ==> Identified(store)
    ensures r.1.Success? <==> 18 <= e.age <= 65
    ensures r.1.Failure? ==> r.0 == store && r.1.error == EmployeeCreateError
    ensures r.1.Failure? ==> r.1.error.Message() == "Employee must be 18~65 years old"
    ensures r.1.Success? ==>
              && r.0 == store + [r.1.value]
              && r.1.value.active
              && r.1.value.id.Some?
              && (forall i :: 0 <= i < |store| ==> store[i].id.value < r.1.value.id.value)
              && r.1.value.name == e.name && r.1.value.age == e.age && r.1.value.gender == e.gender
              && r.1.value.salary == e.salary && r.1.value.companyId == e.companyId
  {
    if HasInvalidAge(e) then (store, Failure(EmployeeCreateError))
    else
      var (s', stored) := AddEmployee(store, e.(active := true));
      (s', Success(stored))
  }

  /** Marks the employee with the given id inactive; every other field and record stays. */
  function Delete(store: Store, id: int): (r: (Store, Result<()>))
    ensures IndexOfId(store, id).None? ==> r == (store, Failure(EmployeeNotFound))
    ensures IndexOfId(store, id).Some? ==>
              var k := IndexOfId(store, id).value;
              && r.1.Success?
              && |r.0| == |store|
              && !r.0[k].active
              && r.0[k].id == store[k].id && r.0[k].name == store[k].name
              && r.0[k].age == store[k].age && r.0[k].gender == store[k].gender
              && r.0[k].salary == store[k].salary && r.0[k].companyId == store[k].companyId
              && forall j :: 0 <= j < |store| && j != k ==> r.0[j] == store[j]
  {
    match FindById(store, id)
    case Failure(err) => (store, Failure(err))
    case Success(matched) =>
      var (s', _) := UpdateEmployee(store, id, matched.(active := false));
      (s', Success(()))
  }

  /** Gives an active employee the age and salary of `info`; refuses an inactive one. */
  function Update(store: Store, id: int, info: Employee): (r: (Store, Result<Employee>))
    ensures IndexOfId(store, id).None? ==> r == (store, Failure(EmployeeNotFound))
    ensures IndexOfId(store, id).Some? && !store[IndexOfId(store, id).value].active ==>
              && r == (store, Failure(EmployeeUpdateError))
              && r.1.error.Message() == "Employee is inactive"
    ensures IndexOfId(store, id).Some? && store[IndexOfId(store, id).value].active ==>
              var k := IndexOfId(store, id).value;
              && |r.0| == |store|
              && r.1 == Success(r.0[k])
              && r.0[k].age == info.age && r.0[k].salary == info.salary
              && r.0[k].id == store[k].id && r.0[k].name == store[k].name
              && r.0[k].gender == store[k].gender && r.0[k].companyId == store[k].companyId
              && r.0[k].active
              && forall j :: 0 <= j < |store| && j != k ==> r.0[j] == store[j]
  {
    match FindById(store, id)
    case Failure(err) => (store, Failure(err))
    case Success(matched) =>
      if IsInactive(matched) then (store, Failure(EmployeeUpdateError))
      else UpdateEmployee(store, id, SetSalary(SetAge(matched, info.age), info.salary))
  }

  /** Creation keeps every stored id set and distinct. */
  lemma CreateKeepsValid(store: Store, e: Employee)
    requires Valid(store)
    ensures Valid(Create(store, e).0)
  {
    if !HasInvalidAge(e) {
      AddKeepsValid(store, e.(active := true));
    }
  }

  /** Soft deletion keeps every stored id set and distinct. */
  lemma DeleteKeepsValid(store: Store, id: int)
    requires Valid(store)
    ensures Valid(Delete(store, id).0)
  {
  }

  /** Updating keeps every stored id set and distinct. */
  lemma UpdateKeepsValid(store: Store, id: int, info: Employee)
    requires Valid(store)
    ensures Valid(Update(store, id, info).0)
  {
  }

  /** A created employee is found under its new id, active. */
  lemma CreateThenFind(store: Store, e: Employee)
    requires Identified(store) && 18 <= e.age <= 65
    ensures var (s', r) := Create(store, e);
            && r.Success?
            && FindById(s', r.value.id.value) == Success(r.value)
            && r.value.active
  {
    AddThenFind(store, e.(active := true));
  }

  /** A created employee can be updated straight away. */
  lemma CreateThenUpdate(store: Store, e: Employee, info: Employee)
    requires Identified(store) && 18 <= e.age <= 65
    ensures var (s', r) := Create(store, e);
            var (s'', u) := Update(s', r.value.id.value, info);
            && u.Success?
            && u.value.age == info.age && u.value.salary == info.salary
            && u.value.name == e.name && u.value.gender == e.gender
  {
    var (s', r) := Create(store, e);
    var n := r.value;
    forall j | 0 <= j < |store|
      ensures s'[j].id != n.id
    {
      assert s'[j] == store[j];
    }
    assert s'[|store|] == n;
    assert IndexOfId(s', n.id.value) == Some(|store|);
  }

  /** After a soft delete the employee is still found, now inactive and otherwise unchanged. */
  lemma DeleteThenFindInactive(store: Store, k: int)
    requires UniqueIds(store) && 0 <= k < |store| && store[k].id.Some?
    ensures var id := store[k].id.value;
            var f := FindById(Delete(store, id).0, id);
            && f.Success?
            && !f.value.active
            && f.value.name == store[k].name && f.value.age == store[k].age
            && f.value.gender == store[k].gender && f.value.salary == store[k].salary
  {
    var id := store[k].id.value;
    FindByIdUnique(store, k);
    var s' := Delete(store, id).0;
    SameIdsSameIndex(store, s', id);
  }

  /** A soft-deleted employee can no longer be updated, and the refusal changes nothing. */
  lemma DeleteThenUpdateRefused(store: Store, id: int, info: Employee)
    requires IndexOfId(store, id).Some?
    ensures var s' := Delete(store, id).0;
            Update(s', id, info) == (s', Failure(EmployeeUpdateError))
  {
    var s' := Delete(store, id).0;
    SameIdsSameIndex(store, s', id);
  }

  /** Repeating an update with the same values changes nothing further. */
  lemma UpdateIdempotent(store: Store, id: int, info: Employee)
    ensures var s' := Update(store, id, info).0;
            Update(s', id, info).0 == s'
  {
    var s' := Update(store, id, info).0;
    SameIdsSameIndex(store, s', id);
    match IndexOfId(store, id)
    case None =>
    case Some(k) =>
      if store[k].active {
        var s'' := Update(s', id, info).0;
        assert s''[k] == s'[k];
        assert s'' == s';
      }
  }
}
