/**
 The employee record: its fields, its four constructors and its two
 mutators, plus the age rule and the active flag the services consult.
 */
module EmployeeModel {
  import opened Outcomes

  /** The youngest and oldest age an employee may be created with. */
  const MinAge: int := 18
  const MaxAge: int := 65

  /** The active flag of a freshly constructed record: the constructors never assign it. */
  const DefaultActive: bool := false

  /** `id` and `companyId` are `None` when the constructor used leaves them unset. */
  datatype Employee = Employee(
    id: Option<int>,
    name: string,
    age: int,
    gender: string,
    salary: int,
    companyId: Option<int>,
    active: bool)

  /** The six-argument constructor: every field as given. */
  function Make(id: Option<int>, name: string, age: int, gender: string, salary: int,
                companyId: Option<int>): (e: Employee)
    ensures e.id == id && e.name == name && e.age == age && e.gender == gender
    ensures e.salary == salary && e.companyId == companyId
    ensures !e.active
  {
    Employee(id, name, age, gender, salary, companyId, DefaultActive)
  }

  /** The five-argument constructor: no company. */
  function MakeWithoutCompany(id: Option<int>, name: string, age: int, gender: string,
                              salary: int): (e: Employee)
    ensures e.id == id && e.name == name && e.age == age && e.gender == gender
    ensures e.salary == salary
    ensures e.companyId.None? && !e.active
  {
    Employee(id, name, age, gender, salary, None, DefaultActive)
  }

  /** The name-first constructor: no id yet, because the repository assigns it. */
  function Draft(name: string, age: int, gender: string, salary: int): (e: Employee)
    ensures e.name == name && e.age == age && e.gender == gender && e.salary == salary
    ensures e.id.None? && e.companyId.None? && !e.active
  {
    Employee(None, name, age, gender, salary, None, DefaultActive)
  }

  /** The name-first constructor with a company: no id yet. */
  function DraftForCompany(name: string, age: int, gender: string, salary: int,
                           companyId: Option<int>): (e: Employee)
    ensures e.name == name && e.age == age && e.gender == gender && e.salary == salary
    ensures e.companyId == companyId
    ensures e.id.None? && !e.active
  {
    Employee(None, name, age, gender, salary, companyId, DefaultActive)
  }

  /** Changes the age and nothing else. */
  function SetAge(e: Employee, age: int): (r: Employee)
    ensures r.age == age
    ensures r.id == e.id && r.name == e.name && r.gender == e.gender && r.salary == e.salary
    ensures r.companyId == e.companyId && r.active == e.active
  {
    e.(age := age)
  }

  /** Changes the salary and nothing else. */
  function SetSalary(e: Employee, salary: int): (r: Employee)
    ensures r.salary == salary
    ensures r.id == e.id && r.name == e.name && r.age == e.age && r.gender == e.gender
    ensures r.companyId == e.companyId && r.active == e.active
  {
    e.(salary := salary)
  }

  /** The age gate of employee creation. */
  predicate HasInvalidAge(e: Employee) {
    e.age < MinAge || e.age > MaxAge
  }

  predicate IsInactive(e: Employee) {
    !e.active
  }
}
