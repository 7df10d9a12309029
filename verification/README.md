# Employee and company store: a Dafny model

This project models the in-memory store and business-rule layer of a small
employee/company CRUD service (a Spring Boot tutorial application). The
service keeps employees and companies in ordered lists, hands out ids as
"largest stored id plus one", looks records up by id, filters and pages
them, and applies three business rules: an employee can only be created
with an age between 18 and 65, deletion is soft (it clears an `active`
flag), and an inactive employee cannot be updated.

The model replaces each static list by an explicit store value, a `seq`
of immutable records. Every operation is a pure function that takes the
store and returns the new store together with a `Result`, whose `Failure`
carries the error the Java code throws (`EmployeeNotFound`,
`CompanyNotFound`, the create and update errors with their messages, and
`IllegalArgument` for the stream library's refusal of a negative skip or
limit).

Modules, leaf first:

- `Outcomes` (`outcomes.dfy`): `Option`, the `Error` kinds with their messages, `Result`.
- `Sequences` (`sequences.dfy`): first match, filter, 1-based pagination and removal, each with an
  independent specification and the lemmas that pin it down.
- `Ids` (`ids.dfy`): the "maximum plus one, or one" id rule.
- `EmployeeModel`, `CompanyModel` (`employee.dfy`, `company.dfy`): the records, their constructors and mutators.
- `EmployeeRepository`, `CompanyRepository`: the two repositories, their seed data and invariants.
- `EmployeeService`, `CompanyService`: the business rules.

Decisions where the Java files do not agree with each other:

- The services call repository methods that the repository file does not declare
  (`findEmployeeById`, `updateEmployee`, `findEmployeesByCompanyId`, and an `addEmployee` that
  returns the stored record). The model uses one API: `FindById` is the repository's `findById`,
  `AddEmployee` returns the stored record, `UpdateEmployee` overwrites the first record with the
  id while keeping that id, and `FindByCompanyId` keeps the employees whose company id equals the
  argument (a record with no company is skipped, see "Left out").
- `Employee.java` declares no `active` field, and the `Company` class is not among the sources: its
  fields and constructors (`Company(id, name)`, `Company(name)`) are inferred from their uses
  (`CompanyRepository.java:19-23,46`, `CompanyServiceTest.java:34,83-84`), and `setActive`,
  `isInactive` and `hasInvalidAge` from their calls in the services. Both records get an
  `active: bool` field. The constructors never assign it, and the model ASSUMES it is then `false`
  (true of a primitive `boolean`; a `Boolean` would be null). `EmployeeService.create` sets it to
  `true`. Consequently the seed employees and every company built by `addCompany` start inactive,
  so updating a seed employee is refused with the update error.
- Ids are `Option<int>`: the Java ids are nullable `Long`s (negative values allowed), unset by the
  name-first constructors. Operations that compute "maximum plus one" require every stored id to be
  set (`Identified`), because the id stream cannot unbox a null id.
- Company soft delete: the repository's `updateCompany` copies only the name, and the service's
  `delete` works only because the lookup hands back the stored object itself, which `setActive`
  changes in place. `CompanyService.Delete` therefore writes the cleared flag into the stored
  record and then calls the rename-only `UpdateCompany`, which is what the Java code achieves.
- Ids are not kept in a counter: each insertion recomputes the maximum plus one, so a deleted largest
  id is handed out again (`CompanyRepository.DeleteLastReusesId`).
- Soft delete versus hard delete: the services delete softly (employees and companies stay stored,
  inactive); the repositories' `removeEmployee` and `deleteCompany` remove records. Both are modelled
  as written.

## Model

| member | source | states |
|---|---|---|
| Ids.Next | src/main/java/com/thoughtworks/springbootemployee/repository/EmployeeRepository.java:50-55 | the next id exceeds every stored id, is 1 for an empty list, and is one more than a stored id otherwise, i.e. the maximum plus one |
| Ids.NextKeepsDistinct | src/main/java/com/thoughtworks/springbootemployee/repository/EmployeeRepository.java:43-55 | appending the next id to distinct ids keeps them distinct |
| Sequences.FirstIndex | src/main/java/com/thoughtworks/springbootemployee/repository/EmployeeRepository.java:30-35 | a first-match search: the position found satisfies the predicate and no earlier one does; nothing is found exactly when no element satisfies it |
| Sequences.Filter | src/main/java/com/thoughtworks/springbootemployee/repository/EmployeeRepository.java:37-41 | every kept element satisfies the predicate, every satisfying element is kept, and the kept elements are a subsequence of the input (order preserved) |
| Sequences.FilterCons | src/main/java/com/thoughtworks/springbootemployee/repository/EmployeeRepository.java:37-41 | the head of a list is kept exactly when it satisfies the predicate, ahead of the filtered rest |
| Sequences.FilterCount | src/main/java/com/thoughtworks/springbootemployee/repository/EmployeeRepository.java:37-41 | each value is kept exactly as many times as it occurs when it satisfies the predicate, and never otherwise |
| Sequences.FilterMembership | src/main/java/com/thoughtworks/springbootemployee/repository/EmployeeRepository.java:37-41 | a value is in the filtered list if and only if it is in the input and satisfies the predicate |
| Sequences.FilterAppend | src/main/java/com/thoughtworks/springbootemployee/repository/EmployeeRepository.java:37-41 | filtering a concatenation is the concatenation of the filtered parts, so relative order is kept |
| Sequences.Page | src/main/java/com/thoughtworks/springbootemployee/repository/EmployeeRepository.java:57-62 | a negative page size or a negative offset (pageNumber - 1) * pageSize is refused with IllegalArgument; otherwise the page is the slice starting at the offset, of length min(pageSize, remaining), empty past the end |
| Sequences.PageLocates | src/main/java/com/thoughtworks/springbootemployee/repository/EmployeeRepository.java:57-62 | for a positive page size, the element at index q * pageSize + m, with 0 <= m < pageSize, appears on page q + 1 at position m, so every element is reachable through exactly the page its index names |
| Sequences.PagesArePrefix | src/main/java/com/thoughtworks/springbootemployee/repository/EmployeeRepository.java:57-62 | reading pages 1 .. n in turn yields exactly the first n * pageSize elements (or the whole list), with no gap or overlap |
| Sequences.RemoveAt | src/main/java/com/thoughtworks/springbootemployee/repository/CompanyRepository.java:64-67 | removing one position shortens the list by one, keeps the elements before it and shifts the ones after it, removing exactly one copy of that element |
| EmployeeModel.Make | src/main/java/com/thoughtworks/springbootemployee/model/Employee.java:16-23 | the six-argument constructor sets id, name, age, gender, salary and company exactly as given, and does not activate the record |
| EmployeeModel.MakeWithoutCompany | src/main/java/com/thoughtworks/springbootemployee/model/Employee.java:25-31 | the five-argument constructor sets id, name, age, gender and salary and leaves the company unset |
| EmployeeModel.Draft | src/main/java/com/thoughtworks/springbootemployee/model/Employee.java:33-38 | the name-first constructor leaves the id (and the company) unset for the repository to assign |
| EmployeeModel.DraftForCompany | src/main/java/com/thoughtworks/springbootemployee/model/Employee.java:40-46 | the name-first constructor with a company leaves the id unset and sets the company |
| EmployeeModel.SetAge | src/main/java/com/thoughtworks/springbootemployee/model/Employee.java:68-70 | only the age changes; id, name, gender, salary, company and active flag are untouched |
| EmployeeModel.SetSalary | src/main/java/com/thoughtworks/springbootemployee/model/Employee.java:72-74 | only the salary changes; every other field is untouched |
| EmployeeModel.HasInvalidAge | src/main/java/com/thoughtworks/springbootemployee/service/EmployeeService.java:19-21 | true exactly when the age is below 18 or above 65, the ages creation refuses |
| EmployeeModel.IsInactive | src/main/java/com/thoughtworks/springbootemployee/service/EmployeeService.java:34-36 | true exactly when the active flag is cleared, the records an update refuses |
| CompanyModel.Make | src/main/java/com/thoughtworks/springbootemployee/repository/CompanyRepository.java:46 | the two-argument constructor sets id and name and does not activate the record |
| CompanyModel.Named | src/test/java/com/thoughtworks/springbootemployee/service/CompanyServiceTest.java:34 | the name-only constructor leaves the id unset |
| CompanyModel.SetName | src/main/java/com/thoughtworks/springbootemployee/repository/CompanyRepository.java:53 | only the name changes; id and active flag are untouched |
| EmployeeRepository.NextId | src/main/java/com/thoughtworks/springbootemployee/repository/EmployeeRepository.java:50-55 | the next employee id is larger than every stored id, 1 on an empty store, and otherwise one more than a stored id (the maximum plus one) |
| EmployeeRepository.ListAll | src/main/java/com/thoughtworks/springbootemployee/repository/EmployeeRepository.java:26-28 | lists every stored employee in store order |
| EmployeeRepository.IndexOfId | src/main/java/com/thoughtworks/springbootemployee/repository/EmployeeRepository.java:30-35 | locates the first employee carrying the id; absent exactly when no employee carries it |
| EmployeeRepository.SameIdsSameIndex | src/main/java/com/thoughtworks/springbootemployee/repository/EmployeeRepository.java:30-35 | the lookup depends only on the ids, position by position, not on the other fields |
| EmployeeRepository.FindById | src/main/java/com/thoughtworks/springbootemployee/repository/EmployeeRepository.java:30-35 | fails with EmployeeNotFound exactly when no stored employee has the id; otherwise returns the first stored employee with that id |
| EmployeeRepository.FindByIdUnique | src/main/java/com/thoughtworks/springbootemployee/repository/EmployeeRepository.java:30-35 | with unique ids, looking up an employee's id returns that employee |
| EmployeeRepository.FindByGender | src/main/java/com/thoughtworks/springbootemployee/repository/EmployeeRepository.java:37-41 | returns only employees of that gender, every stored employee of that gender, in store order |
| EmployeeRepository.FindByGenderCons | src/main/java/com/thoughtworks/springbootemployee/repository/EmployeeRepository.java:37-41 | the first employee is listed exactly when it has the gender, ahead of the matches in the rest |
| EmployeeRepository.FindByCompanyId | src/main/java/com/thoughtworks/springbootemployee/service/CompanyService.java:32-34 | returns only employees of that company, every stored employee of that company, in store order |
| EmployeeRepository.ListByPage | src/main/java/com/thoughtworks/springbootemployee/repository/EmployeeRepository.java:57-62 | the employee page is the exact slice at offset (pageNumber - 1) * pageSize of length min(pageSize, remaining); negative offset or size is refused |
| EmployeeRepository.AddEmployee | src/main/java/com/thoughtworks/springbootemployee/repository/EmployeeRepository.java:43-48 | appends exactly one record at the end with a fresh id larger than every stored id, carrying the caller's name, age, gender, salary, company and active flag; earlier records unchanged |
| EmployeeRepository.AddEmployeeAsWritten | src/main/java/com/thoughtworks/springbootemployee/repository/EmployeeRepository.java:43-48 | the insertion as written appends one record with the fresh id and the caller's name, age, gender and salary, but with no company and inactive |
| EmployeeRepository.UpdateEmployee | src/main/java/com/thoughtworks/springbootemployee/service/EmployeeService.java:29-39 | overwrites only the first employee with the id, keeping that id, and returns it; a missing id gives EmployeeNotFound with the store unchanged |
| EmployeeRepository.RemoveEmployee | src/main/java/com/thoughtworks/springbootemployee/repository/EmployeeRepository.java:64-67 | removes only the first occurrence of the record, keeping the others in order, and returns the record it was given; an absent record leaves the store unchanged |
| EmployeeRepository.AddKeepsValid | src/main/java/com/thoughtworks/springbootemployee/repository/EmployeeRepository.java:43-55 | if ids are set and unique before an insertion, they are after it |
| EmployeeRepository.AddThenFind | src/main/java/com/thoughtworks/springbootemployee/repository/EmployeeRepository.java:30-55 | looking up the id of the record just added finds that record |
| EmployeeRepository.AddThenFindByCompany | src/test/java/com/thoughtworks/springbootemployee/CompanyAPITests.java:76-92 | after an insertion, the company listing gains the new record at its end exactly when the record carries that company |
| EmployeeRepository.UpdateKeepsValid | src/main/java/com/thoughtworks/springbootemployee/service/EmployeeService.java:29-39 | overwriting keeps ids set and unique |
| EmployeeRepository.RemoveKeepsValid | src/main/java/com/thoughtworks/springbootemployee/repository/EmployeeRepository.java:64-67 | removing a record keeps ids set and unique |
| EmployeeRepository.SeedIsValid | src/main/java/com/thoughtworks/springbootemployee/repository/EmployeeRepository.java:18-24 | the five seed employees have set, unique ids and the next id is 6 |
| EmployeeRepository.SeedFemales | src/main/java/com/thoughtworks/springbootemployee/repository/EmployeeRepository.java:37-41 | filtering the seed employees on "Female" yields Alice then Ellen |
| EmployeeRepository.FiveByGender | src/main/java/com/thoughtworks/springbootemployee/repository/EmployeeRepository.java:37-41 | of five employees where only the first and last are female, the gender filter keeps exactly those two, in order |
| EmployeeRepository.AliceAndBobByGender | src/test/java/com/thoughtworks/springbootemployee/EmployeeAPITests.java:77-91 | from Alice/Female and Bob/Male, filtering on "Female" yields exactly [Alice] |
| EmployeeRepository.SeedSecondPage | src/main/java/com/thoughtworks/springbootemployee/repository/EmployeeRepository.java:57-62 | page 2 of size 1 over the five seed employees is exactly the second employee |
| EmployeeRepository.AddEmployeeAsWrittenLosesCompany | src/main/java/com/thoughtworks/springbootemployee/repository/EmployeeRepository.java:43-48 | with the insertion as written, an employee added with company 1 is missing from the company-1 listing; with the corrected insertion it is listed |
| CompanyRepository.NextCompanyId | src/main/java/com/thoughtworks/springbootemployee/repository/CompanyRepository.java:57-62 | the next company id is larger than every stored id, 1 on an empty store, and otherwise the maximum plus one |
| CompanyRepository.GetAllCompanies | src/main/java/com/thoughtworks/springbootemployee/repository/CompanyRepository.java:26-28 | lists every stored company in store order |
| CompanyRepository.IndexOfId | src/main/java/com/thoughtworks/springbootemployee/repository/CompanyRepository.java:30-35 | locates the first company carrying the id; absent exactly when no company carries it |
| CompanyRepository.SameIdsSameIndex | src/main/java/com/thoughtworks/springbootemployee/repository/CompanyRepository.java:30-35 | the lookup depends only on the ids, position by position |
| CompanyRepository.FindCompanyById | src/main/java/com/thoughtworks/springbootemployee/repository/CompanyRepository.java:30-35 | fails with CompanyNotFound exactly when the id is absent; otherwise returns the first company with that id |
| CompanyRepository.ListCompaniesByPage | src/main/java/com/thoughtworks/springbootemployee/repository/CompanyRepository.java:37-42 | the company page is the slice [(pageNumber - 1) * pageSize, + pageSize) clipped to the list; negative offset or size is refused |
| CompanyRepository.AddCompany | src/main/java/com/thoughtworks/springbootemployee/repository/CompanyRepository.java:44-49 | appends one company with a fresh id and the given name and returns it; existing entries unchanged |
| CompanyRepository.UpdateCompany | src/main/java/com/thoughtworks/springbootemployee/repository/CompanyRepository.java:51-55 | changes only the name of the first company with the id and returns it; other companies and other fields untouched; a missing id gives CompanyNotFound |
| CompanyRepository.DeleteCompany | src/main/java/com/thoughtworks/springbootemployee/repository/CompanyRepository.java:64-67 | removes the first company with the id, so the length drops by one and the others keep their order; a missing id gives CompanyNotFound with the store unchanged |
| CompanyRepository.AddKeepsValid | src/main/java/com/thoughtworks/springbootemployee/repository/CompanyRepository.java:44-62 | if company ids are set and unique before an insertion, they are after it |
| CompanyRepository.AddThenFind | src/main/java/com/thoughtworks/springbootemployee/repository/CompanyRepository.java:30-49 | looking up the id of the company just added finds that company |
| CompanyRepository.ClearThenAddGetsIdOne | src/main/java/com/thoughtworks/springbootemployee/repository/CompanyRepository.java:57-62 | after the store is cleared, the first company added gets id 1 |
| CompanyRepository.DeleteLastReusesId | src/main/java/com/thoughtworks/springbootemployee/repository/CompanyRepository.java:57-67 | in a store numbered 1 .. n, deleting company n and adding a company hands out id n again: ids are not monotonic across deletions |
| CompanyRepository.UpdateKeepsValid | src/main/java/com/thoughtworks/springbootemployee/repository/CompanyRepository.java:51-55 | renaming keeps company ids set and unique |
| CompanyRepository.DeleteKeepsValid | src/main/java/com/thoughtworks/springbootemployee/repository/CompanyRepository.java:64-67 | deleting keeps company ids set and unique |
| CompanyRepository.DeleteThenNotFound | src/main/java/com/thoughtworks/springbootemployee/repository/CompanyRepository.java:64-67 | with unique ids, a deleted company can no longer be found |
| CompanyRepository.SeedIsValid | src/main/java/com/thoughtworks/springbootemployee/repository/CompanyRepository.java:18-24 | the five seed companies have set, unique ids and the next id is 6 |
| EmployeeService.Create | src/main/java/com/thoughtworks/springbootemployee/service/EmployeeService.java:18-24 | succeeds exactly when the age is within 18..65; on success the stored record is active, carries a fresh id and the caller's fields and is appended; otherwise the store is unchanged and the error is the create error "Employee must be 18~65 years old" |
| EmployeeService.Delete | src/main/java/com/thoughtworks/springbootemployee/service/EmployeeService.java:26-30 | clears the active flag of the matched employee and leaves its id, name, age, gender, salary, company and every other record unchanged; an absent id gives EmployeeNotFound |
| EmployeeService.Update | src/main/java/com/thoughtworks/springbootemployee/service/EmployeeService.java:32-40 | an absent id gives EmployeeNotFound; an inactive employee gives the update error "Employee is inactive" with nothing changed; otherwise only age and salary take the new values and the result is the stored record |
| EmployeeService.CreateKeepsValid | src/main/java/com/thoughtworks/springbootemployee/service/EmployeeService.java:18-24 | creation keeps employee ids set and unique |
| EmployeeService.DeleteKeepsValid | src/main/java/com/thoughtworks/springbootemployee/service/EmployeeService.java:26-30 | soft deletion keeps employee ids set and unique |
| EmployeeService.UpdateKeepsValid | src/main/java/com/thoughtworks/springbootemployee/service/EmployeeService.java:32-40 | updating keeps employee ids set and unique |
| EmployeeService.CreateThenFind | src/main/java/com/thoughtworks/springbootemployee/service/EmployeeService.java:18-24 | a created employee is found under its new id, active |
| EmployeeService.CreateThenUpdate | src/main/java/com/thoughtworks/springbootemployee/service/EmployeeService.java:18-40 | a freshly created employee can be updated at once, taking the new age and salary and keeping name and gender |
| EmployeeService.DeleteThenFindInactive | src/main/java/com/thoughtworks/springbootemployee/service/EmployeeService.java:26-30 | after a soft delete the employee is still found, inactive, with name, age, gender and salary unchanged |
| EmployeeService.DeleteThenUpdateRefused | src/main/java/com/thoughtworks/springbootemployee/service/EmployeeService.java:26-40 | after a soft delete an update is refused with the update error and changes nothing |
| EmployeeService.UpdateIdempotent | src/main/java/com/thoughtworks/springbootemployee/service/EmployeeService.java:32-40 | repeating an update with the same values changes nothing further |
| CompanyService.GetAll | src/main/java/com/thoughtworks/springbootemployee/service/CompanyService.java:20-22 | returns every stored company in order; the store is untouched |
| CompanyService.FindById | src/main/java/com/thoughtworks/springbootemployee/service/CompanyService.java:24-26 | fails with CompanyNotFound exactly when the id is absent; otherwise the first company with that id |
| CompanyService.Create | src/main/java/com/thoughtworks/springbootemployee/service/CompanyService.java:28-30 | stores and returns a company with a fresh id and the given name, appended at the end |
| CompanyService.FindEmployeesByCompanyId | src/main/java/com/thoughtworks/springbootemployee/service/CompanyService.java:32-34 | returns exactly the employees whose company is the id, in store order |
| CompanyService.Delete | src/main/java/com/thoughtworks/springbootemployee/service/CompanyService.java:36-40 | marks the matched company inactive and keeps its id and name and every other company; an absent id gives CompanyNotFound |
| CompanyService.Update | src/main/java/com/thoughtworks/springbootemployee/service/CompanyService.java:42-44 | renames the first company with the id and returns the stored record with the new name, keeping its id and active flag, every other company unchanged; an absent id gives CompanyNotFound with the store unchanged |
| CompanyService.UpdateThenFind | src/main/java/com/thoughtworks/springbootemployee/service/CompanyService.java:24-44 | after a rename, looking up the id finds the renamed company under its new name |
| CompanyService.GetCompaniesByPage | src/main/java/com/thoughtworks/springbootemployee/service/CompanyService.java:46-48 | returns the exact page slice the repository defines; a negative offset or size is refused with IllegalArgument |
| CompanyService.DeleteKeepsValid | src/main/java/com/thoughtworks/springbootemployee/service/CompanyService.java:36-40 | soft deletion keeps company ids set and unique |
| CompanyService.DeleteThenFindInactive | src/main/java/com/thoughtworks/springbootemployee/service/CompanyService.java:36-40 | after a soft delete the company is still found, inactive, with its name |
| CompanyService.EmployeesOfOtherCompanyExcluded | src/test/java/com/thoughtworks/springbootemployee/CompanyAPITests.java:76-92 | of Alice at company 1 and Bob at company 99, only Alice is listed under company 1 |

## Left out

- Controllers, HTTP routing, status codes, Spring dependency injection, JSON marshalling and the
  test harness: framework plumbing around the modelled calls.
- `controller/EmployeeRepository.java`: an early copy of the employee repository, superseded by the
  modelled one.
- Concurrency: the Java lists are unsynchronised; the model is a single-threaded store value.
- Java `Long` overflow of "maximum plus one" and of `(pageNumber - 1) * pageSize`: integers are unbounded.
- Null `String` and `Integer` fields (a null name, age or salary): strings are `seq<char>` and
  numbers are `int`. A record with a null id inside the store (a `NullPointerException` in the Java
  id stream) is excluded by the `Identified` precondition of the insertions instead of being modelled.
- Lookups by id (`IndexOfId`, `FindById`, `FindCompanyById` and the updates and deletes built on them)
  and the company filter `FindByCompanyId` skip a record whose id, or whose company, is unset, where
  the Java `.equals` call on that null field would throw a `NullPointerException`. Such records cannot
  occur in stores built by the modelled insertions (they keep the store `Valid`), except for the
  company of employees built without one, such as the seed employees, which the filter skips.
- `removeEmployee` compares by reference in Java; the model removes the first element equal in value.
  `deleteCompany` removes the position of the first company with the id, which is the object the
  Java lookup returned.
- `cleanAll` (called by the tests) is the `Empty` store constant; the static seed blocks are the `Seed`
  constants.
- `EmployeeService.getAll`, `findById` and `findByGender` are exercised by the tests but are not in the
  service file; the repository functions they would pass through to are modelled.
- `CompanyNotFoundException` is not part of this model: its message "Company not found" is assumed.
  The repository throws `exception.EmployeeNotFoundException`, which is not part of this model either;
  its message "Employee not found" is taken from the controller package's class of the same name.
  The message of the stream library's `IllegalArgumentException` (the offending number) is not
  modelled; `Message()` returns an empty string for it.
- CompanyService.FindById: states the repository's first-match contract, not identity with the
  repository call; the two coincide because the body is the call.

## Findings

| source | as written | input that shows it | evidently intended | confidence | as-written member | corrected member |
|---|---|---|---|---|---|---|
| src/main/java/com/thoughtworks/springbootemployee/repository/EmployeeRepository.java:43-48 | `addEmployee` rebuilds the stored copy with the five-argument constructor from name, age, gender and salary, dropping the caller's company (and the active flag `EmployeeService.create` has just set) | an empty store; add `Employee("Alice", 24, "Female", 9000, 1L)`; listing company 1 returns nothing, while `CompanyAPITests.java:79-87` expects Alice | the stored copy keeps the caller's company and active flag, only the id is fresh | medium; not executed | EmployeeRepository.AddEmployeeAsWritten, EmployeeRepository.AddEmployeeAsWrittenLosesCompany | EmployeeRepository.AddEmployee, EmployeeRepository.AddThenFindByCompany |
