/**
 Optional values, the error kinds of the employee/company service, and the
 Success/Failure result every fallible operation returns.
 */
module Outcomes {

  /** A Java reference that may be null: `None` stands for an unset field. */
  datatype Option<+T> = None | Some(value: T)

  /** One variant per exception the repositories and services throw. */
  datatype Error =
    | EmployeeNotFound     // lookup of an employee id that is not stored
    | CompanyNotFound      // lookup of a company id that is not stored
    | EmployeeCreateError  // creation of an employee whose age is outside 18..65
    | EmployeeUpdateError  // update of an employee that is inactive
    | IllegalArgument      // the stream library refuses a negative skip or limit
  {
    /** The message the exception carries. */
    function Message(): string {
      match this
      case EmployeeNotFound => "Employee not found"
      case CompanyNotFound => "Company not found"
      case EmployeeCreateError => "Employee must be 18~65 years old"
      case EmployeeUpdateError => "Employee is inactive"
      case IllegalArgument => ""
    }
  }

  datatype Result<+T> = Success(value: T) | Failure(error: Error)
}
